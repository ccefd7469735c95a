/**
 * The JSON values a request body can carry after `express.json()` has parsed it,
 * together with the few JavaScript semantics the create handler relies on:
 * truthiness, `typeof x === "string"`, `Number.isInteger` and `String.prototype.trim`.
 *
 * Numbers are not modelled as doubles: a number is either integral (and then its
 * exact value is kept) or it is not (`1.5`, `2.7`), which is all `Number.isInteger`
 * and the comparisons after it can observe.
 */
module JsValue {
  import opened Wrappers

  datatype Number = Integral(i: int) | NonIntegral

  datatype Json =
    | JNull
    | JBool(b: bool)
    | JNum(n: Number)
    | JStr(s: string)
    | JArray(items: seq<Json>)
    | JObject(fields: map<string, Json>)

  /** JavaScript truthiness of a property that may be `undefined` (`None`). */
  predicate Truthy(v: Option<Json>) {
    match v
    case None => false
    case Some(JNull) => false
    case Some(JBool(b)) => b
    case Some(JNum(n)) => n != Integral(0)
    case Some(JStr(s)) => s != ""
    case Some(JArray(_)) => true
    case Some(JObject(_)) => true
  }

  /** `typeof v === "string"` */
  predicate IsString(v: Option<Json>) {
    v.Some? && v.value.JStr?
  }

  /** `Number.isInteger(v)`: only integral numbers pass; strings such as "10" do not. */
  predicate IsInteger(v: Json) {
    v.JNum? && v.n.Integral?
  }

  /**
   * The characters `String.prototype.trim` removes: the ECMAScript WhiteSpace
   * characters (tab, vertical tab, form feed, space, no-break space, the byte order
   * mark and the other Unicode space separators) and the LineTerminator characters.
   */
  predicate IsJsWhitespace(c: char) {
    || c == '\t' || c == '\U{000B}' || c == '\U{000C}' || c == ' ' || c == '\U{00A0}' || c == '\U{FEFF}'
    || c == '\n' || c == '\r' || c == '\U{2028}' || c == '\U{2029}'
    || c == '\U{1680}' || ('\U{2000}' <= c <= '\U{200A}') || c == '\U{202F}' || c == '\U{205F}' || c == '\U{3000}'
  }

  function TrimStart(s: string): string {
    if |s| > 0 && IsJsWhitespace(s[0]) then TrimStart(s[1..]) else s
  }

  function TrimEnd(s: string): string {
    if |s| > 0 && IsJsWhitespace(s[|s| - 1]) then TrimEnd(s[..|s| - 1]) else s
  }

  /** `s.trim()` */
  function Trim(s: string): string {
    TrimEnd(TrimStart(s))
  }

  /** "Not blank": some character is not whitespace. */
  predicate HasNonWhitespace(s: string) {
    exists i :: 0 <= i < |s| && !IsJsWhitespace(s[i])
  }

  lemma {:induction false} TrimStartEmpty(s: string)
    ensures TrimStart(s) == [] <==> !HasNonWhitespace(s)
  {
    if |s| > 0 && IsJsWhitespace(s[0]) {
      TrimStartEmpty(s[1..]);
      if HasNonWhitespace(s[1..]) {
        var i :| 0 <= i < |s[1..]| && !IsJsWhitespace(s[1..][i]);
        assert !IsJsWhitespace(s[i + 1]);
      }
      if HasNonWhitespace(s) {
        var i :| 0 <= i < |s| && !IsJsWhitespace(s[i]);
        assert i > 0 && !IsJsWhitespace(s[1..][i - 1]);
      }
    } else if |s| > 0 {
      assert !IsJsWhitespace(s[0]);
    }
  }

  lemma {:induction false} TrimEndEmpty(s: string)
    ensures TrimEnd(s) == [] <==> !HasNonWhitespace(s)
  {
    if |s| > 0 && IsJsWhitespace(s[|s| - 1]) {
      var t := s[..|s| - 1];
      TrimEndEmpty(t);
      if HasNonWhitespace(t) {
        var i :| 0 <= i < |t| && !IsJsWhitespace(t[i]);
        assert !IsJsWhitespace(s[i]);
      }
      if HasNonWhitespace(s) {
        var i :| 0 <= i < |s| && !IsJsWhitespace(s[i]);
        assert i < |s| - 1 && !IsJsWhitespace(t[i]);
      }
    } else if |s| > 0 {
      assert !IsJsWhitespace(s[|s| - 1]);
    }
  }

  /** `!s.trim()` holds exactly for the strings made only of whitespace (the empty string included). */
  lemma TrimEmptyIffBlank(s: string)
    ensures Trim(s) == [] <==> !HasNonWhitespace(s)
  {
    TrimStartEmpty(s);
    TrimEndEmpty(TrimStart(s));
    if TrimStart(s) != [] {
      TrimStartStopsAtText(s);
      assert !IsJsWhitespace(TrimStart(s)[0]);
    }
  }

  /** What is left after trimming the front starts with a non-whitespace character. */
  lemma {:induction false} TrimStartStopsAtText(s: string)
    ensures TrimStart(s) != [] ==> !IsJsWhitespace(TrimStart(s)[0])
  {
    if |s| > 0 && IsJsWhitespace(s[0]) {
      TrimStartStopsAtText(s[1..]);
    }
  }
}
