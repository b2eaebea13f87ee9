/** The JavaScript values that flow through the handlers: request bodies, query
    parameters and document fields. Numbers are integers; `NaN` is its own case
    because it is the result of a failed `parseInt` and is unequal to everything. */
module Js {
  import opened Wrappers
  import opened Text

  datatype JsValue =
    | Undefined
    | Null
    | Bool(b: bool)
    | Num(n: int)
    | NaN
    | Str(s: string)
    | Arr(items: seq<JsValue>)

  /** A plain object: a request body, a query, or the data of a stored document. */
  type JsObject = map<string, JsValue>

  /** Property access `o.k`: a missing property reads as `undefined`. */
  function Prop(o: JsObject, k: string): (v: JsValue)
    ensures k !in o ==> v == Undefined
  {
    if k in o then o[k] else Undefined
  }

  /** JavaScript truthiness: `false`, `0`, `NaN`, `""`, `null` and `undefined` are falsy. */
  predicate Truthy(v: JsValue) {
    match v
    case Undefined => false
    case Null => false
    case Bool(b) => b
    case Num(n) => n != 0
    case NaN => false
    case Str(s) => s != ""
    case Arr(_) => true
  }

  /** `v || d`. */
  function Or(v: JsValue, d: JsValue): (r: JsValue)
    ensures Truthy(v) ==> r == v
    ensures !Truthy(v) ==> r == d
  {
    if Truthy(v) then v else d
  }

  /** `undefined` or `null`: the values `??` replaces. */
  predicate Nullish(v: JsValue) {
    v.Undefined? || v.Null?
  }

  /** `v ?? d`: only `null` and `undefined` are replaced. */
  function Coalesce(v: JsValue, d: JsValue): (r: JsValue)
    ensures Nullish(v) ==> r == d
    ensures !Nullish(v) ==> r == v
  {
    if Nullish(v) then d else v
  }

  /** Strict equality `a === b`. Arrays are objects, and two arrays read from
      different places are never the same reference. */
  predicate StrictEq(a: JsValue, b: JsValue) {
    a == b && !a.NaN? && !a.Arr?
  }

  /** The SameValueZero comparison of `Array.prototype.includes`: like `===`,
      except that `NaN` equals `NaN`. */
  predicate SameValueZero(a: JsValue, b: JsValue) {
    a == b && !a.Arr?
  }

  /** A parsed number as a JavaScript value: `None` is `NaN`. */
  function NumberValue(n: Option<int>): (v: JsValue)
    ensures n.None? ==> v == NaN
    ensures n.Some? ==> v == Num(n.value)
  {
    match n
    case None => NaN
    case Some(k) => Num(k)
  }

  /** The decimal numeral of an integer, as `String(n)` writes it. */
  function DecimalString(n: int): (r: string)
    ensures r != []
    ensures n >= 0 ==> AllDigits(r)
    ensures n < 0 ==> r[0] == '-' && AllDigits(r[1..])
  {
    if n < 0 then "-" + NatDigits(-n) else NatDigits(n)
  }

  /** `String(v)`, also what a template literal `${v}` inserts. */
  function ToJsString(v: JsValue): string {
    match v
    case Undefined => "undefined"
    case Null => "null"
    case Bool(b) => if b then "true" else "false"
    case Num(n) => DecimalString(n)
    case NaN => "NaN"
    case Str(s) => s
    case Arr(items) => JoinItems(items)
  }

  /** `Array.prototype.join(",")`: `null` and `undefined` elements become empty. */
  function JoinItems(items: seq<JsValue>): string
    decreases items
  {
    if items == [] then ""
    else
      var first := if Nullish(items[0]) then "" else ToJsString(items[0]);
      if |items| == 1 then first else first + "," + JoinItems(items[1..])
  }

  /** Optional sign, then a decimal digit run. */
  function SignedDigits(t: string): Option<int> {
    var negative := t != [] && t[0] == '-';
    var rest := if t != [] && (t[0] == '-' || t[0] == '+') then t[1..] else t;
    var ds := DigitPrefix(rest);
    if ds == [] then None
    else
      var magnitude: int := DigitsValue(ds);
      Some(if negative then -magnitude else magnitude)
  }

  /** `parseInt(s)` with radix 10: leading whitespace skipped, an optional sign,
      then the longest run of decimal digits; no digits gives `NaN` (`None`). */
  function ParseInt(s: string): (r: Option<int>)
    ensures r.Some? ==> DigitPrefix(TrimStart(s)) != [] || (|TrimStart(s)| > 0 && TrimStart(s)[0] in "+-")
  {
    SignedDigits(TrimStart(s))
  }

  /** `parseInt(String(v))`, case by case: a number parses to itself, the words
      `undefined`, `null`, `true`, `false` and `NaN` parse to `NaN`, strings and
      arrays are parsed from their text (`ParseIntValueAgrees` shows this is
      `ParseInt(ToJsString(v))`). */
  function ParseIntValue(v: JsValue): Option<int> {
    match v
    case Num(n) => Some(n)
    case Str(s) => ParseInt(s)
    case Arr(items) => ParseInt(JoinItems(items))
    case _ => None
  }

  /** The number a string converts to (`Number(s)`), over integers: surrounding
      whitespace ignored, the empty string is 0, otherwise an optionally signed
      decimal numeral; anything else is `NaN`. */
  function StringToNumber(s: string): (r: Option<int>)
    ensures Trim(s) == "" ==> r == Some(0)
  {
    var t := Trim(s);
    if t == [] then Some(0)
    else
      var rest := if t[0] == '-' || t[0] == '+' then t[1..] else t;
      if rest != [] && AllDigits(rest) then SignedDigits(t) else None
  }

  /** ToNumber of a primitive (not an array); `None` is `NaN`. */
  function NumberOf(v: JsValue): Option<int>
    requires !v.Arr?
  {
    match v
    case Undefined => None
    case Null => Some(0)
    case Bool(b) => Some(if b then 1 else 0)
    case Num(n) => Some(n)
    case NaN => None
    case Str(s) => StringToNumber(s)
  }

  /** Loose equality between two primitives. */
  predicate LoosePrimitiveEq(a: JsValue, b: JsValue)
    requires !a.Arr? && !b.Arr?
  {
    var aNullish := Nullish(a);
    var bNullish := Nullish(b);
    if aNullish || bNullish then aNullish && bNullish
    else if a.Str? && b.Str? then a == b
    else if a.Bool? && b.Bool? then a == b
    else
      var x, y := NumberOf(a), NumberOf(b);
      x.Some? && y.Some? && x.value == y.value
  }

  /** Loose equality `a == b`: two arrays are compared by reference (never equal
      here); an array against a primitive is first turned into its joined string. */
  predicate LooseEq(a: JsValue, b: JsValue) {
    if a.Arr? && b.Arr? then false
    else if a.Arr? then !Nullish(b) && LoosePrimitiveEq(Str(ToJsString(a)), b)
    else if b.Arr? then !Nullish(a) && LoosePrimitiveEq(a, Str(ToJsString(b)))
    else LoosePrimitiveEq(a, b)
  }

  /** `Array.prototype.includes`. */
  predicate Includes(items: seq<JsValue>, v: JsValue) {
    exists i :: 0 <= i < |items| && SameValueZero(items[i], v)
  }

  /** A numeral, read as an optionally signed digit run, gives back its integer. */
  lemma SignedDigitsOfNumeral(n: int)
    ensures SignedDigits(DecimalString(n)) == Some(n)
  {
    var m: nat := if n < 0 then -n else n;
    DigitPrefixOfDigits(NatDigits(m), []);
    assert NatDigits(m) + [] == NatDigits(m);
    NatDigitsRoundTrip(m);
    if n < 0 {
      assert DecimalString(n)[1..] == NatDigits(m);
    }
  }

  /** `parseInt(String(n))` gives back the integer `n`. */
  lemma ParseIntOfNumber(n: int)
    ensures ParseInt(ToJsString(Num(n))) == Some(n)
  {
    var s := DecimalString(n);
    assert !IsWhitespace(s[0]);
    assert TrimStart(s) == s;
    SignedDigitsOfNumeral(n);
  }

  /** A word with no digits, sign or leading whitespace parses to `NaN`. */
  lemma ParseIntOfWord(w: string)
    requires w != [] && !IsWhitespace(w[0]) && !IsDigit(w[0]) && w[0] != '-' && w[0] != '+'
    ensures ParseInt(w) == None
  {
    assert TrimStart(w) == w;
  }

  /** The case-by-case `ParseIntValue` is `parseInt` applied to `String(v)`. */
  lemma ParseIntValueAgrees(v: JsValue)
    ensures ParseIntValue(v) == ParseInt(ToJsString(v))
  {
    match v
    case Num(n) => ParseIntOfNumber(n);
    case Str(_) =>
    case Arr(_) =>
    case Undefined => ParseIntOfWord("undefined");
    case Null => ParseIntOfWord("null");
    case Bool(b) => ParseIntOfWord(if b then "true" else "false");
    case NaN => ParseIntOfWord("NaN");
  }

  /** The numeral of an integer converts back to that integer. */
  lemma StringToNumberOfNumeral(n: int)
    ensures StringToNumber(DecimalString(n)) == Some(n)
  {
    var s := DecimalString(n);
    assert !IsWhitespace(s[0]) && !IsWhitespace(s[|s| - 1]);
    assert TrimStart(s) == s;
    assert Trim(s) == s;
    SignedDigitsOfNumeral(n);
  }

  /** Loose equality makes a numeric slot equal the same number sent as a
      string, where strict equality does not. */
  lemma LooseMatchesNumeral(n: int)
    ensures LooseEq(Num(n), Str(DecimalString(n)))
    ensures LooseEq(Str(DecimalString(n)), Num(n))
    ensures !StrictEq(Num(n), Str(DecimalString(n)))
  {
    StringToNumberOfNumeral(n);
  }

  /** Whatever is strictly equal is loosely equal. */
  lemma StrictImpliesLoose(a: JsValue, b: JsValue)
    requires StrictEq(a, b)
    ensures LooseEq(a, b)
  {
  }
}
