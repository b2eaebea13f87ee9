/** Responses and storage failures, as the handlers see them. */
module Http {
  import opened Js

  /** The keys the handlers put in their JSON answers. */
  datatype Field = Acceso | Nombre | Matricula | HuellaID | UserID | Registrado | Mensaje | Motivo | Error
  {
    /** The key as it appears in the JSON text. */
    function Key(): string {
      match this
      case Acceso => "acceso"
      case Nombre => "nombre"
      case Matricula => "matricula"
      case HuellaID => "huellaID"
      case UserID => "userID"
      case Registrado => "registrado"
      case Mensaje => "mensaje"
      case Motivo => "motivo"
      case Error => "error"
    }
  }

  /** An HTTP response: a status code and a JSON object body. */
  datatype Response = Response(status: int, body: map<Field, JsValue>)

  /** Which storage calls of one request throw: listing a whole collection,
      reading or writing the document with a given id, appending a new document. */
  datatype Faults = Faults(listFails: bool, docFails: set<string>, writeFails: bool)

  /** The response carries `acceso: false`. */
  predicate Denies(r: Response) {
    Acceso in r.body && r.body[Acceso] == Bool(false)
  }
}

/** The user collection and the fingerprint search every access handler runs over it. */
module Directory {
  import opened Wrappers
  import opened Js

  /** A stored user: its document id and its fields (`nombre`, `matricula`,
      `huella1`, `huella2`, ...). */
  datatype UserDoc = UserDoc(id: string, data: JsObject)

  /** Which equality a handler compares fingerprint slots with. */
  datatype Equality = Strict | Loose

  predicate Equal(eq: Equality, a: JsValue, b: JsValue) {
    match eq
    case Strict => StrictEq(a, b)
    case Loose => LooseEq(a, b)
  }

  /** `data.huella1 OP v || data.huella2 OP v`. */
  predicate Holds(data: JsObject, v: JsValue, eq: Equality) {
    Equal(eq, Prop(data, "huella1"), v) || Equal(eq, Prop(data, "huella2"), v)
  }

  /** The index of the first user, in collection order, holding fingerprint `v`. */
  function FirstHolder(users: seq<UserDoc>, v: JsValue, eq: Equality): (r: Option<nat>)
    ensures r.Some? ==> r.value < |users| && Holds(users[r.value].data, v, eq)
    ensures r.Some? ==> forall j :: 0 <= j < r.value ==> !Holds(users[j].data, v, eq)
    ensures r.None? <==> forall j :: 0 <= j < |users| ==> !Holds(users[j].data, v, eq)
  {
    if users == [] then None
    else if Holds(users[0].data, v, eq) then Some(0)
    else
      match FirstHolder(users[1..], v, eq)
      case None => None
      case Some(k) => Some(k + 1)
  }

  /** A holder with no holder before it is the first holder. */
  lemma {:induction false} FirstHolderAt(users: seq<UserDoc>, v: JsValue, eq: Equality, k: nat)
    requires k < |users| && Holds(users[k].data, v, eq)
    requires forall j :: 0 <= j < k ==> !Holds(users[j].data, v, eq)
    ensures FirstHolder(users, v, eq) == Some(k)
  {
    if k > 0 {
      assert !Holds(users[0].data, v, eq);
      assert forall j :: 0 <= j < k - 1 ==> users[1..][j] == users[j + 1];
      FirstHolderAt(users[1..], v, eq, k - 1);
    }
  }

  /** Users after the first holder are never looked at: replacing them changes nothing. */
  lemma FirstHolderIgnoresLater(users: seq<UserDoc>, v: JsValue, eq: Equality, rest: seq<UserDoc>)
    requires FirstHolder(users, v, eq).Some?
    ensures var k := FirstHolder(users, v, eq).value;
            FirstHolder(users[..k + 1] + rest, v, eq) == Some(k)
  {
    var k := FirstHolder(users, v, eq).value;
    var other := users[..k + 1] + rest;
    assert other[k] == users[k];
    assert forall j :: 0 <= j < k ==> other[j] == users[j];
    FirstHolderAt(other, v, eq, k);
  }

  /** Under strict equality an unparseable fingerprint id (`NaN`) matches no one. */
  lemma NaNMatchesNoOne(users: seq<UserDoc>)
    ensures FirstHolder(users, NaN, Strict) == None
  {
  }
}
