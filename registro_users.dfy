/** The user-administration screen: loading the user table, creating, editing
    and deleting users, grouping enabled permissions per user, the permission
    editor's initial selection and saving it record by record. */
module RegistroUsers {
  import opened Wrappers
  import opened Js
  import opened Directory

  /** A row of the user table. */
  datatype User = User(id: string, nombre: JsValue, matricula: JsValue, huella1: JsValue, huella2: JsValue)

  /** What the new-user form hands back (every field but the id). */
  datatype UserInput = UserInput(nombre: JsValue, matricula: JsValue, huella1: JsValue, huella2: JsValue)

  /** A permission record as read back: `userID`, `areaID`, `habilitado`
      (a missing field reads as `Undefined`). */
  datatype Perm = Perm(userID: JsValue, areaID: JsValue, habilitado: JsValue)

  /** An area as listed in the permission editor. */
  datatype Area = Area(id: string, nombre: JsValue)

  // ---------------------------------------------------------------------------
  // Loading

  /** A user document mapped to a row: each field `?? ""`. */
  function LoadUser(d: UserDoc): (u: User)
    ensures u.id == d.id
    ensures u.nombre == (if Nullish(Prop(d.data, "nombre")) then Str("") else Prop(d.data, "nombre"))
    ensures u.matricula == (if Nullish(Prop(d.data, "matricula")) then Str("") else Prop(d.data, "matricula"))
    ensures u.huella1 == (if Nullish(Prop(d.data, "huella1")) then Str("") else Prop(d.data, "huella1"))
    ensures u.huella2 == (if Nullish(Prop(d.data, "huella2")) then Str("") else Prop(d.data, "huella2"))
    ensures !Nullish(u.nombre) && !Nullish(u.matricula) && !Nullish(u.huella1) && !Nullish(u.huella2)
  {
    User(d.id,
         Coalesce(Prop(d.data, "nombre"), Str("")),
         Coalesce(Prop(d.data, "matricula"), Str("")),
         Coalesce(Prop(d.data, "huella1"), Str("")),
         Coalesce(Prop(d.data, "huella2"), Str("")))
  }

  /** The filter: `nombre !== ""` and `matricula !== ""`. */
  predicate Kept(u: User) {
    u.nombre != Str("") && u.matricula != Str("")
  }

  /** The user table: every document loaded, then those without a name or an
      enrolment number dropped. */
  function LoadUsers(docs: seq<UserDoc>): (r: seq<User>)
    ensures |r| <= |docs|
    ensures forall u :: u in r <==> Kept(u) && exists i :: 0 <= i < |docs| && LoadUser(docs[i]) == u
  {
    if docs == [] then []
    else
      var u := LoadUser(docs[0]);
      var rest := LoadUsers(docs[1..]);
      assert forall i :: 0 <= i < |docs| - 1 ==> docs[1..][i] == docs[i + 1];
      if Kept(u) then [u] + rest else rest
  }

  /** A single document gives its row when that row is kept, and nothing otherwise. */
  lemma LoadUsersOne(d: UserDoc)
    ensures LoadUsers([d]) == if Kept(LoadUser(d)) then [LoadUser(d)] else []
  {
    assert [d][1..] == [];
  }

  /** Loading keeps listing order and multiplicity: the table of two listings
      one after the other is the first table followed by the second. */
  lemma {:induction false} LoadUsersAppend(a: seq<UserDoc>, b: seq<UserDoc>)
    ensures LoadUsers(a + b) == LoadUsers(a) + LoadUsers(b)
  {
    if a != [] {
      assert (a + b)[0] == a[0];
      assert (a + b)[1..] == a[1..] + b;
      LoadUsersAppend(a[1..], b);
    } else {
      assert a + b == b;
    }
  }

  /** A document whose `nombre` or `matricula` is absent (or null, or "") never
      makes it into the table. */
  lemma UnnamedUserDropped(docs: seq<UserDoc>, i: nat)
    requires i < |docs|
    requires Coalesce(Prop(docs[i].data, "nombre"), Str("")) == Str("")
    ensures LoadUser(docs[i]) !in LoadUsers(docs)
  {
    assert !Kept(LoadUser(docs[i]));
  }

  // ---------------------------------------------------------------------------
  // Creating, editing and deleting

  /** The row written for a form: the form's four values under document id `id`. */
  function WithId(n: UserInput, id: string): (u: User)
    ensures u.id == id
    ensures u.nombre == n.nombre && u.matricula == n.matricula
    ensures u.huella1 == n.huella1 && u.huella2 == n.huella2
  {
    User(id, n.nombre, n.matricula, n.huella1, n.huella2)
  }

  /** The table after editing user `id`: entries with that id take the form's
      values and keep the id; every other entry is left alone. */
  function Edited(users: seq<User>, id: string, n: UserInput): (r: seq<User>)
    ensures |r| == |users|
    ensures forall i :: 0 <= i < |users| ==> r[i].id == users[i].id
    ensures forall i :: 0 <= i < |users| && users[i].id == id ==> r[i] == WithId(n, id)
    ensures forall i :: 0 <= i < |users| && users[i].id != id ==> r[i] == users[i]
  {
    seq(|users|, i requires 0 <= i < |users| => if users[i].id == id then WithId(n, id) else users[i])
  }

  /** The table after creating a user whose new document got id `newId`. */
  function Created(users: seq<User>, n: UserInput, newId: string): (r: seq<User>)
    ensures |r| == |users| + 1 && r[..|users|] == users && r[|users|] == WithId(n, newId)
  {
    users + [WithId(n, newId)]
  }

  /** The table after deleting user `id`: every entry with that id is gone, the
      rest stay in order. */
  function Deleted(users: seq<User>, id: string): (r: seq<User>)
    ensures |r| <= |users|
    ensures forall u :: u in r <==> u in users && u.id != id
  {
    if users == [] then []
    else if users[0].id == id then Deleted(users[1..], id)
    else [users[0]] + Deleted(users[1..], id)
  }

  /** A single entry is dropped exactly when it carries the deleted id. */
  lemma DeletedOne(u: User, id: string)
    ensures Deleted([u], id) == if u.id == id then [] else [u]
  {
    assert [u][1..] == [];
  }

  /** Deletion keeps order and multiplicity: it acts on each part of the
      table separately. */
  lemma {:induction false} DeletedAppend(a: seq<User>, b: seq<User>, id: string)
    ensures Deleted(a + b, id) == Deleted(a, id) + Deleted(b, id)
  {
    if a != [] {
      assert (a + b)[0] == a[0];
      assert (a + b)[1..] == a[1..] + b;
      DeletedAppend(a[1..], b, id);
    } else {
      assert a + b == b;
    }
  }

  /** `handleSaveUser`: edit when a user is being edited, otherwise create; the
      table changes only after the storage write succeeded. */
  function SaveUser(users: seq<User>, editing: Option<User>, n: UserInput, newId: string,
                    writeFails: bool): (r: seq<User>)
    ensures writeFails ==> r == users
    ensures !writeFails && editing.Some? ==> r == Edited(users, editing.value.id, n)
    ensures !writeFails && editing.None? ==> r == Created(users, n, newId)
  {
    if writeFails then users
    else match editing
      case Some(e) => Edited(users, e.id, n)
      case None => Created(users, n, newId)
  }

  /** `handleDeleteUser`: nothing happens unless confirmed and the delete succeeded. */
  function DeleteUser(users: seq<User>, id: string, confirmed: bool, writeFails: bool): (r: seq<User>)
    ensures !confirmed || writeFails ==> r == users
    ensures confirmed && !writeFails ==> r == Deleted(users, id)
  {
    if confirmed && !writeFails then Deleted(users, id) else users
  }

  /** Deleting a freshly created user gives back the table as it was. */
  lemma {:induction false} DeleteUndoesCreate(users: seq<User>, n: UserInput, newId: string)
    requires forall u :: u in users ==> u.id != newId
    ensures Deleted(Created(users, n, newId), newId) == users
  {
    if users != [] {
      assert Created(users, n, newId)[1..] == Created(users[1..], n, newId);
      DeleteUndoesCreate(users[1..], n, newId);
    }
  }

  /** Editing with the same form twice is the same as editing once. */
  lemma EditIdempotent(users: seq<User>, id: string, n: UserInput)
    ensures Edited(Edited(users, id, n), id, n) == Edited(users, id, n)
  {
  }

  /** Deleting an edited user leaves the same table as deleting it unedited. */
  lemma {:induction false} DeleteAfterEdit(users: seq<User>, id: string, n: UserInput)
    ensures Deleted(Edited(users, id, n), id) == Deleted(users, id)
  {
    if users != [] {
      assert Edited(users, id, n)[1..] == Edited(users[1..], id, n);
      DeleteAfterEdit(users[1..], id, n);
    }
  }

  // ---------------------------------------------------------------------------
  // Enabled areas per user

  /** The key an object literal files a record under: `String(userID)`. */
  function UserKey(p: Perm): string {
    ToJsString(p.userID)
  }

  /** The `areaID`s of the records filed under `key` with a truthy `habilitado`,
      in encounter order. */
  function EnabledAreas(perms: seq<Perm>, key: string): (r: seq<JsValue>)
    ensures |r| <= |perms|
    ensures forall a :: a in r <==> exists j :: 0 <= j < |perms| && UserKey(perms[j]) == key && Truthy(perms[j].habilitado) && perms[j].areaID == a
    decreases |perms|
  {
    if perms == [] then []
    else
      var p := perms[|perms| - 1];
      var before := EnabledAreas(perms[..|perms| - 1], key);
      assert forall j :: 0 <= j < |perms| - 1 ==> perms[..|perms| - 1][j] == perms[j];
      if Truthy(p.habilitado) && UserKey(p) == key then before + [p.areaID] else before
  }

  /** Grouping keeps encounter order and multiplicity: the list of two listings
      one after the other is the first list followed by the second. */
  lemma {:induction false} EnabledAreasAppend(a: seq<Perm>, b: seq<Perm>, key: string)
    ensures EnabledAreas(a + b, key) == EnabledAreas(a, key) + EnabledAreas(b, key)
    decreases |b|
  {
    if b == [] {
      assert a + b == a;
    } else {
      var b' := b[..|b| - 1];
      assert (a + b)[..|a + b| - 1] == a + b';
      assert (a + b)[|a + b| - 1] == b[|b| - 1];
      EnabledAreasAppend(a, b', key);
    }
  }

  /** The grouping loop: each enabled record pushes its `areaID` onto its user's
      list, creating the list on first use. A user appears exactly when it has
      an enabled record, and its list is its enabled areas in encounter order. */
  method GroupEnabled(perms: seq<Perm>) returns (grouped: map<string, seq<JsValue>>)
    ensures forall k :: k in grouped <==> EnabledAreas(perms, k) != []
    ensures forall k :: k in grouped ==> grouped[k] == EnabledAreas(perms, k)
  {
    grouped := map[];
    var i := 0;
    while i < |perms|
      invariant 0 <= i <= |perms|
      invariant forall k :: k in grouped <==> EnabledAreas(perms[..i], k) != []
      invariant forall k :: k in grouped ==> grouped[k] == EnabledAreas(perms[..i], k)
    {
      var p := perms[i];
      assert perms[..i + 1][..i] == perms[..i];
      if Truthy(p.habilitado) {
        var key := UserKey(p);
        if key !in grouped {
          grouped := grouped[key := []];
        }
        grouped := grouped[key := grouped[key] + [p.areaID]];
      }
      i := i + 1;
    }
    assert perms[..i] == perms;
  }

  /** The permissions cell: the number of assigned areas, or `None` for the
      "Sin acceso" tag when the user has no list or an empty one. */
  function AssignedCount(grouped: map<string, seq<JsValue>>, id: string): (r: Option<nat>)
    ensures r.Some? <==> id in grouped && grouped[id] != []
    ensures r.Some? ==> r.value == |grouped[id]| && r.value > 0
  {
    if id in grouped && |grouped[id]| > 0 then Some(|grouped[id]|) else None
  }

  /** Right after loading, a user shows a count exactly when one of its records
      is enabled, and the count is the number of such records. */
  lemma CountAfterGrouping(perms: seq<Perm>, grouped: map<string, seq<JsValue>>, id: string)
    requires forall k :: k in grouped <==> EnabledAreas(perms, k) != []
    requires forall k :: k in grouped ==> grouped[k] == EnabledAreas(perms, k)
    ensures AssignedCount(grouped, id) == if EnabledAreas(perms, id) == [] then None else Some(|EnabledAreas(perms, id)|)
  {
  }

  /** `abrirPermisos`: the `areaID`s of the records with `userID === id` and a
      truthy `habilitado`, in listing order. */
  function SelectedAreas(perms: seq<Perm>, id: string): (r: seq<JsValue>)
    ensures |r| <= |perms|
    ensures forall a :: a in r <==> exists j :: 0 <= j < |perms| && StrictEq(perms[j].userID, Str(id)) && Truthy(perms[j].habilitado) && perms[j].areaID == a
    decreases |perms|
  {
    if perms == [] then []
    else
      var p := perms[|perms| - 1];
      var before := SelectedAreas(perms[..|perms| - 1], id);
      assert forall j :: 0 <= j < |perms| - 1 ==> perms[..|perms| - 1][j] == perms[j];
      if StrictEq(p.userID, Str(id)) && Truthy(p.habilitado) then before + [p.areaID] else before
  }

  /** The selection keeps listing order and multiplicity: two listings one
      after the other give the first selection followed by the second. */
  lemma {:induction false} SelectedAreasAppend(a: seq<Perm>, b: seq<Perm>, id: string)
    ensures SelectedAreas(a + b, id) == SelectedAreas(a, id) + SelectedAreas(b, id)
    decreases |b|
  {
    if b == [] {
      assert a + b == a;
    } else {
      var b' := b[..|b| - 1];
      assert (a + b)[..|a + b| - 1] == a + b';
      assert (a + b)[|a + b| - 1] == b[|b| - 1];
      SelectedAreasAppend(a, b', id);
    }
  }

  /** When every record's `userID` is a string, the editor opens on exactly the
      list the table was grouped with. */
  lemma {:induction false} SelectionMatchesGrouping(perms: seq<Perm>, id: string)
    requires forall j :: 0 <= j < |perms| ==> perms[j].userID.Str?
    ensures SelectedAreas(perms, id) == EnabledAreas(perms, id)
    decreases |perms|
  {
    if perms != [] {
      SelectionMatchesGrouping(perms[..|perms| - 1], id);
    }
  }

  /** A record whose `userID` is the number `n` is grouped under the numeral of
      `n` but never selected for the user with that id. */
  lemma NumericUserIdGroupedNotSelected(n: int, area: JsValue)
    ensures EnabledAreas([Perm(Num(n), area, Bool(true))], ToJsString(Num(n))) == [area]
    ensures SelectedAreas([Perm(Num(n), area, Bool(true))], ToJsString(Num(n))) == []
  {
    var ps := [Perm(Num(n), area, Bool(true))];
    assert ps[..0] == [];
  }

  // ---------------------------------------------------------------------------
  // Saving the permission editor

  function PermKey(userId: string, areaId: string): string {
    userId + "_" + areaId
  }

  /** The record written for one area: enabled exactly when its id was ticked. */
  function Record(userId: string, areaId: string, selection: seq<JsValue>): (p: Perm)
    ensures p.userID == Str(userId) && p.areaID == Str(areaId)
    ensures p.habilitado == Bool(true) <==> Includes(selection, Str(areaId))
  {
    Perm(Str(userId), Str(areaId), Bool(Includes(selection, Str(areaId))))
  }

  /** The permission table after writing the records of `areas` in order. */
  function Written(table: map<string, Perm>, userId: string, areas: seq<Area>, selection: seq<JsValue>)
    : (r: map<string, Perm>)
    ensures r.Keys == table.Keys + set j | 0 <= j < |areas| :: PermKey(userId, areas[j].id)
    decreases |areas|
  {
    if areas == [] then table
    else
      var a := areas[|areas| - 1];
      var before := areas[..|areas| - 1];
      var w := Written(table, userId, before, selection);
      assert forall j :: 0 <= j < |before| ==> before[j] == areas[j];
      w[PermKey(userId, a.id) := Record(userId, a.id, selection)]
  }

  /** Each written area's record says whether it was ticked; every key that is
      not an area's key keeps its old record. */
  lemma {:induction false} WrittenRecords(table: map<string, Perm>, userId: string, areas: seq<Area>,
                                          selection: seq<JsValue>)
    ensures forall j :: 0 <= j < |areas| ==>
      Written(table, userId, areas, selection)[PermKey(userId, areas[j].id)] == Record(userId, areas[j].id, selection)
    ensures forall k :: k in table && k !in (set j | 0 <= j < |areas| :: PermKey(userId, areas[j].id)) ==>
      Written(table, userId, areas, selection)[k] == table[k]
    decreases |areas|
  {
    if areas != [] {
      var before := areas[..|areas| - 1];
      WrittenRecords(table, userId, before, selection);
      var last := areas[|areas| - 1];
      forall j | 0 <= j < |areas|
        ensures Written(table, userId, areas, selection)[PermKey(userId, areas[j].id)] == Record(userId, areas[j].id, selection)
      {
        if j < |areas| - 1 && PermKey(userId, areas[j].id) != PermKey(userId, last.id) {
          assert before[j] == areas[j];
        } else if j < |areas| - 1 {
          KeySuffix(userId, areas[j].id, last.id);
        }
      }
      forall k | k in table && k !in (set j | 0 <= j < |areas| :: PermKey(userId, areas[j].id))
        ensures Written(table, userId, areas, selection)[k] == table[k]
      {
        assert k != PermKey(userId, last.id);
        assert forall j :: 0 <= j < |before| ==> before[j] == areas[j];
      }
    }
  }

  /** Keys of one user differ exactly when the area ids differ. */
  lemma KeySuffix(userId: string, a: string, b: string)
    requires PermKey(userId, a) == PermKey(userId, b)
    ensures a == b
  {
    var n := |userId| + 1;
    assert PermKey(userId, a)[n..] == a;
    assert PermKey(userId, b)[n..] == b;
  }

  /** `guardarPermisos`. With no user selected nothing happens. Otherwise one
      record per listed area is written, in order, until a write throws; the
      per-user map takes the selection only when every write went through.
      `written` is how many records were written. */
  method SavePermissions(selected: Option<User>, areas: seq<Area>, selection: seq<JsValue>,
                         table: map<string, Perm>, byUser: map<string, seq<JsValue>>,
                         writeFails: set<string>)
    returns (table': map<string, Perm>, byUser': map<string, seq<JsValue>>, written: nat)
    ensures selected.None? ==> table' == table && byUser' == byUser && written == 0
    ensures selected.Some? ==>
      && written <= |areas|
      && table' == Written(table, selected.value.id, areas[..written], selection)
      && (forall j :: 0 <= j < written ==> PermKey(selected.value.id, areas[j].id) !in writeFails)
      && (written < |areas| ==> PermKey(selected.value.id, areas[written].id) in writeFails)
      && byUser' == (if written == |areas| then byUser[selected.value.id := selection] else byUser)
  {
    table', byUser', written := table, byUser, 0;
    if selected.None? {
      return;
    }
    var uid := selected.value.id;
    while written < |areas|
      invariant written <= |areas|
      invariant table' == Written(table, uid, areas[..written], selection)
      invariant forall j :: 0 <= j < written ==> PermKey(uid, areas[j].id) !in writeFails
    {
      var a := areas[written];
      var key := PermKey(uid, a.id);
      if key in writeFails {
        return;
      }
      assert areas[..written + 1][..written] == areas[..written];
      table' := table'[key := Record(uid, a.id, selection)];
      written := written + 1;
    }
    byUser' := byUser'[uid := selection];
  }
}
