/** "Is this fingerprint registered?" with a re-read of each user document
    before it is compared. */
module RegisteredCheck {
  import opened Wrappers
  import opened Js
  import opened Http
  import opened Directory

  function ServerFailure(): Response {
    Response(500, map[Error := Str("Error del servidor")])
  }

  /** The answer for a user found holding the fingerprint. */
  function Registered(data: JsObject): (r: Response)
    ensures r.status == 200 && r.body.Keys == {Registrado, Nombre, Matricula}
    ensures r.body[Registrado] == Bool(true) && Truthy(r.body[Nombre])
    ensures Truthy(Prop(data, "nombre")) ==> r.body[Nombre] == data["nombre"]
    ensures !Truthy(Prop(data, "nombre")) ==> r.body[Nombre] == Str("Sin nombre")
    ensures Truthy(Prop(data, "matricula")) ==> r.body[Matricula] == data["matricula"]
    ensures !Truthy(Prop(data, "matricula")) ==> r.body[Matricula] == Str("")
  {
    Response(200, map[Registrado := Bool(true),
                      Nombre := Or(Prop(data, "nombre"), Str("Sin nombre")),
                      Matricula := Or(Prop(data, "matricula"), Str(""))])
  }

  function NotRegistered(): Response {
    Response(200, map[Registrado := Bool(false)])
  }

  /** The listed user still exists when re-read and holds `huella` (strictly, as sent). */
  predicate LiveHolder(u: UserDoc, current: map<string, JsObject>, huella: JsValue) {
    u.id in current && Holds(current[u.id], huella, Strict)
  }

  /** The re-read of `users[i]` throws, and no user before it is a live holder:
      the scan reaches that read. */
  predicate ReadFailsFirst(users: seq<UserDoc>, i: int, current: map<string, JsObject>, huella: JsValue,
                           docFails: set<string>)
    requires 0 <= i < |users|
  {
    users[i].id in docFails && forall j :: 0 <= j < i ==> !LiveHolder(users[j], current, huella)
  }

  /** The loop over the listed users: each is re-read by id (a read that may
      throw), skipped if it no longer exists, and the first live holder answers. */
  function Scan(users: seq<UserDoc>, current: map<string, JsObject>, huella: JsValue,
                docFails: set<string>): (r: Response)
    ensures r.status in {200, 500}
    ensures r.status == 500 ==> r == ServerFailure()
    ensures r == ServerFailure() <==> exists i :: 0 <= i < |users| && ReadFailsFirst(users, i, current, huella, docFails)
    ensures r == NotRegistered() ==> forall j :: 0 <= j < |users| ==> !LiveHolder(users[j], current, huella)
    ensures r.status == 200 && r != NotRegistered() ==>
      exists i :: 0 <= i < |users| && LiveHolder(users[i], current, huella) && r == Registered(current[users[i].id])
    ensures docFails == {} ==> r.status == 200
    decreases |users|
  {
    if users == [] then NotRegistered()
    else
      var id := users[0].id;
      if id in docFails then
        assert ReadFailsFirst(users, 0, current, huella, docFails);
        ServerFailure()
      else if id in current && Holds(current[id], huella, Strict) then
        assert forall i :: 0 < i < |users| ==> !ReadFailsFirst(users, i, current, huella, docFails) by {
          forall i | 0 < i < |users| ensures !ReadFailsFirst(users, i, current, huella, docFails) {
            assert LiveHolder(users[0], current, huella);
          }
        }
        Registered(current[id])
      else
        var rest := Scan(users[1..], current, huella, docFails);
        assert forall i :: 0 < i < |users| ==>
          (ReadFailsFirst(users, i, current, huella, docFails) <==> ReadFailsFirst(users[1..], i - 1, current, huella, docFails)) by {
          forall i | 0 < i < |users|
            ensures ReadFailsFirst(users, i, current, huella, docFails) <==> ReadFailsFirst(users[1..], i - 1, current, huella, docFails)
          {
            assert forall j :: 0 <= j < i - 1 ==> users[1..][j] == users[j + 1];
          }
        }
        assert !ReadFailsFirst(users, 0, current, huella, docFails);
        assert rest == ServerFailure() ==> exists i :: 0 <= i < |users| && ReadFailsFirst(users, i, current, huella, docFails) by {
          if rest == ServerFailure() {
            var k :| 0 <= k < |users| - 1 && ReadFailsFirst(users[1..], k, current, huella, docFails);
            assert ReadFailsFirst(users, k + 1, current, huella, docFails);
          }
        }
        rest
  }

  /** `handler`: 405 for anything but POST, 400 when `huella` is missing, 500 when
      the listing throws, otherwise the scan's answer. */
  function Handler(verb: string, body: JsObject, users: seq<UserDoc>, current: map<string, JsObject>,
                   faults: Faults): (r: Response)
    ensures verb != "POST" ==> r.status == 405
    ensures verb == "POST" && !Truthy(Prop(body, "huella")) ==> r.status == 400
    ensures r.status in {200, 400, 405, 500}
    ensures verb == "POST" && Truthy(Prop(body, "huella")) && faults.listFails ==> r == ServerFailure()
    ensures verb == "POST" && Truthy(Prop(body, "huella")) && !faults.listFails ==>
      r == Scan(users, current, Prop(body, "huella"), faults.docFails)
  {
    if verb != "POST" then Response(405, map[Error := Str("Método no permitido")])
    else
      var huella := Prop(body, "huella");
      if !Truthy(huella) then Response(400, map[Error := Str("Falta la huella")])
      else if faults.listFails then ServerFailure()
      else Scan(users, current, huella, faults.docFails)
  }

  /** The users that still exist when re-read, with their current data. */
  function Refetched(users: seq<UserDoc>, current: map<string, JsObject>): (r: seq<UserDoc>)
    ensures |r| <= |users|
    ensures forall d :: d in r <==> exists i :: 0 <= i < |users| && users[i].id in current && d == UserDoc(users[i].id, current[users[i].id])
  {
    if users == [] then []
    else
      assert forall i :: 0 <= i < |users| - 1 ==> users[1..][i] == users[i + 1];
      (if users[0].id in current then [UserDoc(users[0].id, current[users[0].id])] else [])
      + Refetched(users[1..], current)
  }

  /** The re-read keeps listing order and multiplicity: it acts on each part of
      the listing separately. */
  lemma {:induction false} RefetchedAppend(a: seq<UserDoc>, b: seq<UserDoc>, current: map<string, JsObject>)
    ensures Refetched(a + b, current) == Refetched(a, current) + Refetched(b, current)
  {
    if a != [] {
      assert (a + b)[0] == a[0];
      assert (a + b)[1..] == a[1..] + b;
      RefetchedAppend(a[1..], b, current);
    } else {
      assert a + b == b;
    }
  }

  /** The answer for the first holder in `live`, or "not registered". */
  function AnswerFor(live: seq<UserDoc>, huella: JsValue): Response {
    match FirstHolder(live, huella, Strict)
    case None => NotRegistered()
    case Some(k) => Registered(live[k].data)
  }

  /** Putting a non-holder in front of a list does not change its answer. */
  lemma AnswerSkipsNonHolder(u: UserDoc, rest: seq<UserDoc>, huella: JsValue)
    requires !Holds(u.data, huella, Strict)
    ensures AnswerFor([u] + rest, huella) == AnswerFor(rest, huella)
  {
    var live := [u] + rest;
    assert live[1..] == rest;
    match FirstHolder(rest, huella, Strict)
    case None =>
    case Some(k) =>
      assert live[k + 1] == rest[k];
  }

  /** When no read throws, the scan answers for the first holder among the users
      that still exist, with their re-read data. */
  lemma {:induction false} ScanFindsFirstRefetchedHolder(users: seq<UserDoc>, current: map<string, JsObject>,
                                                          huella: JsValue)
    ensures Scan(users, current, huella, {}) == AnswerFor(Refetched(users, current), huella)
  {
    if users != [] {
      ScanFindsFirstRefetchedHolder(users[1..], current, huella);
      var id := users[0].id;
      var rest := Refetched(users[1..], current);
      if id in current {
        var u := UserDoc(id, current[id]);
        assert Refetched(users, current) == [u] + rest;
        if Holds(current[id], huella, Strict) {
          FirstHolderAt([u] + rest, huella, Strict, 0);
        } else {
          AnswerSkipsNonHolder(u, rest, huella);
        }
      } else {
        assert Refetched(users, current) == rest;
      }
    }
  }

  /** A user whose re-read finds it deleted is skipped, as if it had not been listed. */
  lemma DeletedUserSkipped(u: UserDoc, rest: seq<UserDoc>, current: map<string, JsObject>,
                           huella: JsValue, docFails: set<string>)
    requires u.id !in current && u.id !in docFails
    ensures Scan([u] + rest, current, huella, docFails) == Scan(rest, current, huella, docFails)
  {
    assert ([u] + rest)[1..] == rest;
  }
}

/** "Is this fingerprint registered?" without re-reading, as the source has it:
    there is no check that `huellaID` was sent at all. */
module RegisteredCheckApi {
  import opened Wrappers
  import opened Js
  import opened Http
  import opened Directory
  import RegisteredCheck

  /** The answer for the first user holding `huellaID`, compared as sent. */
  function Lookup(body: JsObject, users: seq<UserDoc>, faults: Faults): (r: Response)
    ensures r.status in {200, 500}
    ensures faults.listFails ==> r == RegisteredCheck.ServerFailure()
    ensures !faults.listFails ==>
      r == match FirstHolder(users, Prop(body, "huellaID"), Strict)
           case None => RegisteredCheck.NotRegistered()
           case Some(k) => RegisteredCheck.Registered(users[k].data)
  {
    if faults.listFails then RegisteredCheck.ServerFailure()
    else
      match FirstHolder(users, Prop(body, "huellaID"), Strict)
      case None => RegisteredCheck.NotRegistered()
      case Some(k) => RegisteredCheck.Registered(users[k].data)
  }

  /** `handler` as written: 405 for anything but POST, then the lookup, even for
      a request that carries no `huellaID`. Storage is only read. */
  function Handler(verb: string, body: JsObject, users: seq<UserDoc>, faults: Faults): (r: Response)
    ensures verb != "POST" ==> r.status == 405
    ensures verb == "POST" ==> r == Lookup(body, users, faults)
  {
    if verb != "POST" then Response(405, map[Error := Str("Método no permitido")])
    else Lookup(body, users, faults)
  }

  /** As written, a request without `huellaID` is reported as the registered
      fingerprint of any first user with an empty slot (`undefined === undefined`). */
  lemma MissingIdReportsRegistered(body: JsObject, u: UserDoc, rest: seq<UserDoc>)
    requires "huellaID" !in body && "huella1" !in u.data
    ensures Handler("POST", body, [u] + rest, Faults(false, {}, false)) == RegisteredCheck.Registered(u.data)
  {
    assert Holds(u.data, Prop(body, "huellaID"), Strict);
    FirstHolderAt([u] + rest, Prop(body, "huellaID"), Strict, 0);
  }

  /** The handler with the presence check its sibling has: 400 when `huellaID`
      is falsy, otherwise the same lookup. */
  function CheckedHandler(verb: string, body: JsObject, users: seq<UserDoc>, faults: Faults): (r: Response)
    ensures verb != "POST" ==> r.status == 405
    ensures verb == "POST" && !Truthy(Prop(body, "huellaID")) ==> r.status == 400 && Registrado !in r.body
    ensures verb == "POST" && Truthy(Prop(body, "huellaID")) ==> r == Handler(verb, body, users, faults)
  {
    if verb != "POST" then Response(405, map[Error := Str("Método no permitido")])
    else if !Truthy(Prop(body, "huellaID")) then Response(400, map[Error := Str("Falta la huella")])
    else Lookup(body, users, faults)
  }

  /** With the check, a "registered" answer always names a user who really holds
      the id that was sent, and that id is a present, truthy value, so an empty
      slot can never be what matched. */
  lemma CheckedHandlerMatchesOnlyRealIds(verb: string, body: JsObject, users: seq<UserDoc>, faults: Faults)
    requires CheckedHandler(verb, body, users, faults).status == 200
    requires CheckedHandler(verb, body, users, faults) != RegisteredCheck.NotRegistered()
    ensures Truthy(Prop(body, "huellaID"))
    ensures exists k :: 0 <= k < |users| && Holds(users[k].data, Prop(body, "huellaID"), Strict)
  {
    var r := CheckedHandler(verb, body, users, faults);
    assert verb == "POST";
    assert !faults.listFails;
    var k := FirstHolder(users, Prop(body, "huellaID"), Strict).value;
    assert Holds(users[k].data, Prop(body, "huellaID"), Strict);
  }
}
