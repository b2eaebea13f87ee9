/** The canonical area key: the area name lower-cased, with every whitespace
    character removed. Permission records of the access handlers are keyed by
    `userID + "_" + Normalize(area)`. */
module AreaKey {
  import opened Text

  /** `normalizar` / `normalizarTexto`: `s.toLowerCase().replace(/\s+/g, "")`. */
  function Normalize(s: string): (k: string)
    ensures |k| <= |s|
    ensures forall i :: 0 <= i < |k| ==> !IsWhitespace(k[i]) && !IsUpper(k[i])
  {
    StripWhitespace(ToLower(s))
  }

  /** Normalizing a key again leaves it as it is. */
  lemma NormalizeIdempotent(s: string)
    ensures Normalize(Normalize(s)) == Normalize(s)
  {
    var k := Normalize(s);
    assert ToLower(k) == k;
  }

  /** The key of one character: nothing for whitespace, the lower-cased
      character otherwise. With `NormalizeAppend` this determines the key of
      every name, character by character and in order. */
  lemma NormalizeChar(c: char)
    ensures Normalize([c]) == if IsWhitespace(c) then "" else [LowerChar(c)]
  {
    assert ToLower([c]) == [LowerChar(c)];
    assert [LowerChar(c)][1..] == [];
  }

  /** A name that is already lower-case and free of whitespace is its own key. */
  lemma NormalizeCanonical(s: string)
    requires forall i :: 0 <= i < |s| ==> !IsWhitespace(s[i]) && !IsUpper(s[i])
    ensures Normalize(s) == s
  {
    assert ToLower(s) == s;
  }

  /** Stripping whitespace distributes over concatenation. */
  lemma {:induction false} StripAppend(a: string, b: string)
    ensures StripWhitespace(a + b) == StripWhitespace(a) + StripWhitespace(b)
  {
    if a != [] {
      assert (a + b)[1..] == a[1..] + b;
      StripAppend(a[1..], b);
    } else {
      assert a + b == b;
    }
  }

  /** Lower-casing works character by character, so it distributes over concatenation. */
  lemma LowerAppend(a: string, b: string)
    ensures ToLower(a + b) == ToLower(a) + ToLower(b)
  {
    var l, r := ToLower(a + b), ToLower(a) + ToLower(b);
    forall i | 0 <= i < |l| ensures l[i] == r[i] {
      if i < |a| {
        assert (a + b)[i] == a[i];
      } else {
        assert (a + b)[i] == b[i - |a|];
      }
    }
  }

  /** The key of a concatenation is the concatenation of the keys. */
  lemma NormalizeAppend(a: string, b: string)
    ensures Normalize(a + b) == Normalize(a) + Normalize(b)
  {
    LowerAppend(a, b);
    StripAppend(ToLower(a), ToLower(b));
  }

  /** A run of whitespace has the empty key. */
  lemma {:induction false} NormalizeWhitespace(w: string)
    requires forall i :: 0 <= i < |w| ==> IsWhitespace(w[i])
    ensures Normalize(w) == ""
  {
    if w != [] {
      NormalizeAppend(w[..1], w[1..]);
      assert w[..1] + w[1..] == w;
      NormalizeWhitespace(w[1..]);
    }
  }

  /** Inserting (or removing) whitespace anywhere in a name does not change its key. */
  lemma WhitespaceInsensitive(a: string, w: string, b: string)
    requires forall i :: 0 <= i < |w| ==> IsWhitespace(w[i])
    ensures Normalize(a + w + b) == Normalize(a + b)
  {
    calc {
      Normalize(a + w + b);
      { NormalizeAppend(a + w, b); }
      Normalize(a + w) + Normalize(b);
      { NormalizeAppend(a, w); NormalizeWhitespace(w); }
      Normalize(a) + "" + Normalize(b);
      { assert Normalize(a) + "" == Normalize(a); }
      Normalize(a) + Normalize(b);
      { NormalizeAppend(a, b); }
      Normalize(a + b);
    }
  }

  /** Names that agree letter by letter up to case have the same key. */
  lemma CaseInsensitive(a: string, b: string)
    requires |a| == |b|
    requires forall i :: 0 <= i < |a| ==> LowerChar(a[i]) == LowerChar(b[i])
    ensures Normalize(a) == Normalize(b)
  {
    assert ToLower(a) == ToLower(b);
  }

  /** In particular, the upper-cased and lower-cased forms of a name share its key. */
  lemma CaseFoldings(s: string)
    ensures Normalize(ToUpper(s)) == Normalize(s)
    ensures Normalize(ToLower(s)) == Normalize(s)
  {
    CaseInsensitive(ToUpper(s), s);
    CaseInsensitive(ToLower(s), s);
  }
}

/** The area list screen: each row shows the area name and the permission id
    derived from it. */
module RegistroAreas {
  import opened Text
  import opened Js
  import opened AreaKey
  import AccessRoute

  /** An area as the list loads it: `nombre` defaults to `""` when missing. */
  datatype AreaRow = AreaRow(id: string, nombre: JsValue)

  function LoadArea(id: string, data: JsObject): (a: AreaRow)
    ensures a.id == id
    ensures !Nullish(a.nombre)
    ensures Nullish(Prop(data, "nombre")) ==> a.nombre == Str("")
    ensures !Nullish(Prop(data, "nombre")) ==> a.nombre == data["nombre"]
  {
    AreaRow(id, Coalesce(Prop(data, "nombre"), Str("")))
  }

  /** The "Nombre del Área" cell: the name, or `-` when it is falsy. */
  function NameCell(a: AreaRow): (cell: JsValue)
    ensures Truthy(cell)
    ensures Truthy(a.nombre) ==> cell == a.nombre
    ensures !Truthy(a.nombre) ==> cell == Str("-")
  {
    Or(a.nombre, Str("-"))
  }

  /** The "ID de Permiso (DB)" cell: the key of a string name. A non-string
      name has no `toLowerCase` and the row fails to render (`None`). */
  function PermissionIdCell(a: AreaRow): (cell: Wrappers.Option<string>)
    ensures a.nombre.Str? <==> cell.Some?
    ensures cell.Some? ==> cell.value == Normalize(a.nombre.s)
  {
    if a.nombre.Str? then Wrappers.Some(Normalize(a.nombre.s)) else Wrappers.None
  }

  /** The permission id shown for an area is exactly the key the access check
      builds from a request naming that area, whatever the spacing or case the
      name was typed with. */
  lemma PermissionIdMatchesRequests(a: AreaRow, body: JsObject, typed: string)
    requires a.nombre.Str?
    requires Prop(body, "area") == Str(typed)
    requires Normalize(typed) == Normalize(a.nombre.s)
    ensures PermissionIdCell(a) == Wrappers.Some(AccessRoute.AreaNorm(body))
  {
  }

  /** In particular, a request that types the area name in another case and
      with whitespace inserted is checked against the permission id shown. */
  lemma RetypedNameMatchesPermissionId(a: AreaRow, body: JsObject, typed: string, w: string, k: nat)
    requires a.nombre.Str? && k <= |a.nombre.s|
    requires |typed| == |a.nombre.s|
    requires forall i :: 0 <= i < |typed| ==> LowerChar(typed[i]) == LowerChar(a.nombre.s[i])
    requires forall i :: 0 <= i < |w| ==> IsWhitespace(w[i])
    requires Prop(body, "area") == Str(typed[..k] + w + typed[k..])
    ensures PermissionIdCell(a) == Wrappers.Some(AccessRoute.AreaNorm(body))
  {
    WhitespaceInsensitive(typed[..k], w, typed[k..]);
    assert typed[..k] + typed[k..] == typed;
    CaseInsensitive(typed, a.nombre.s);
  }
}
