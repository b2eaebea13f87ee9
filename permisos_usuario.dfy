/** The per-user zone editor: zones from the configuration, each marked with
    whether the user may enter it, toggled one by one and saved back as the
    user's `zonasPermitidas`. */
module PermisosUsuario {
  import opened Wrappers
  import opened Js

  /** A zone as stored in the configuration list. */
  datatype ZoneEntry = ZoneEntry(id: string, name: JsValue, schedule: JsValue)

  /** A zone as shown in the editor. */
  datatype Zone = Zone(id: string, name: JsValue, schedule: JsValue, hasAccess: bool)

  /** `zonasPermitidas?.includes(id) || false`; `None` is an absent list. */
  predicate Permitted(permitted: Option<seq<JsValue>>, id: string) {
    permitted.Some? && Includes(permitted.value, Str(id))
  }

  /** The zones as loaded: the configuration list in order, each marked with
      whether the user's list holds its id. */
  function LoadZones(all: seq<ZoneEntry>, permitted: Option<seq<JsValue>>): (r: seq<Zone>)
    ensures |r| == |all|
    ensures forall i :: 0 <= i < |all| ==>
      r[i].id == all[i].id && r[i].name == all[i].name && r[i].schedule == all[i].schedule
    ensures forall i :: 0 <= i < |all| ==> (r[i].hasAccess <==> Permitted(permitted, all[i].id))
    ensures permitted.None? ==> forall i :: 0 <= i < |r| ==> !r[i].hasAccess
  {
    seq(|all|, i requires 0 <= i < |all| =>
      Zone(all[i].id, all[i].name, all[i].schedule, Permitted(permitted, all[i].id)))
  }

  /** `handleToggleAccess`: flips `hasAccess` on the zones with that id and
      nothing else. */
  function Toggle(zones: seq<Zone>, id: string): (r: seq<Zone>)
    ensures |r| == |zones|
    ensures forall i :: 0 <= i < |zones| ==>
      r[i].id == zones[i].id && r[i].name == zones[i].name && r[i].schedule == zones[i].schedule
    ensures forall i :: 0 <= i < |zones| ==> (r[i].hasAccess <==> (zones[i].id == id) != zones[i].hasAccess)
  {
    seq(|zones|, i requires 0 <= i < |zones| =>
      if zones[i].id == id then zones[i].(hasAccess := !zones[i].hasAccess) else zones[i])
  }

  /** The ids of the zones marked with access, in list order. */
  function AllowedZones(zones: seq<Zone>): (r: seq<string>)
    ensures |r| <= |zones|
    ensures forall id :: id in r <==> exists i :: 0 <= i < |zones| && zones[i].hasAccess && zones[i].id == id
  {
    if zones == [] then []
    else
      var rest := AllowedZones(zones[1..]);
      assert forall i :: 0 <= i < |zones| - 1 ==> zones[1..][i] == zones[i + 1];
      if zones[0].hasAccess then [zones[0].id] + rest else rest
  }

  /** A single zone contributes its id exactly when it is ticked. */
  lemma AllowedZonesOne(z: Zone)
    ensures AllowedZones([z]) == if z.hasAccess then [z.id] else []
  {
    assert [z][1..] == [];
  }

  /** The saved list keeps the order and multiplicity of the zone list: it is
      built part by part. */
  lemma {:induction false} AllowedZonesAppend(a: seq<Zone>, b: seq<Zone>)
    ensures AllowedZones(a + b) == AllowedZones(a) + AllowedZones(b)
  {
    if a != [] {
      assert (a + b)[0] == a[0];
      assert (a + b)[1..] == a[1..] + b;
      AllowedZonesAppend(a[1..], b);
    } else {
      assert a + b == b;
    }
  }

  /** `handleSavePermissions`: with no user loaded nothing is written; otherwise
      the user's document gets the allowed zone ids. */
  function Save(userId: Option<string>, zones: seq<Zone>): (w: Option<(string, seq<string>)>)
    ensures userId.None? <==> w.None?
    ensures userId.Some? ==> w.value.0 == userId.value && w.value.1 == AllowedZones(zones)
  {
    match userId
    case None => None
    case Some(id) => Some((id, AllowedZones(zones)))
  }

  /** Toggling the same zone twice gives back the list as it was. */
  lemma ToggleTwice(zones: seq<Zone>, id: string)
    ensures Toggle(Toggle(zones, id), id) == zones
  {
    var r := Toggle(Toggle(zones, id), id);
    assert forall i :: 0 <= i < |zones| ==> r[i] == zones[i];
  }

  /** Toggles of different zones commute. */
  lemma TogglesCommute(zones: seq<Zone>, a: string, b: string)
    ensures Toggle(Toggle(zones, a), b) == Toggle(Toggle(zones, b), a)
  {
    var l := Toggle(Toggle(zones, a), b);
    var r := Toggle(Toggle(zones, b), a);
    assert forall i :: 0 <= i < |zones| ==> l[i] == r[i];
  }

  /** Loading and saving without a toggle keeps exactly the configured zones
      whose ids were permitted; ids that name no configured zone are dropped. */
  lemma LoadThenSave(all: seq<ZoneEntry>, permitted: seq<JsValue>)
    ensures forall id :: id in AllowedZones(LoadZones(all, Some(permitted))) <==>
      (exists i :: 0 <= i < |all| && all[i].id == id) && Includes(permitted, Str(id))
  {
    var zs := LoadZones(all, Some(permitted));
    forall id | id in AllowedZones(zs)
      ensures exists i :: 0 <= i < |all| && all[i].id == id
    {
      var i :| 0 <= i < |zs| && zs[i].hasAccess && zs[i].id == id;
      assert all[i].id == id;
    }
    forall id | (exists i :: 0 <= i < |all| && all[i].id == id) && Includes(permitted, Str(id))
      ensures id in AllowedZones(zs)
    {
      var i :| 0 <= i < |all| && all[i].id == id;
      assert zs[i].hasAccess && zs[i].id == id;
    }
  }

  /** A toggle moves a zone's id into or out of the saved list, when that id
      names exactly one zone. */
  lemma ToggleFlipsSaved(zones: seq<Zone>, k: nat)
    requires k < |zones|
    requires forall i :: 0 <= i < |zones| && i != k ==> zones[i].id != zones[k].id
    ensures zones[k].id in AllowedZones(Toggle(zones, zones[k].id)) <==> zones[k].id !in AllowedZones(zones)
  {
    var id := zones[k].id;
    var t := Toggle(zones, id);
    if id in AllowedZones(t) {
      var i :| 0 <= i < |t| && t[i].hasAccess && t[i].id == id;
      assert i == k;
    } else {
      assert !t[k].hasAccess;
      assert zones[k].hasAccess;
    }
  }
}
