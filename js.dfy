/** The few JavaScript value semantics the two route handlers depend on:
    truthiness of the request's `note`, the `\s` character class and the
    UTF-16 `length` of a string. */
module Js {

  /** A JSON request field as JavaScript sees it after `request.json()`.
      Arrays and objects are always truthy, so they share one constructor.
      JSON has no NaN literal, so `NaN` never comes out of `request.json()`;
      it is there only to complete the falsy values of `!!v`. */
  datatype JsValue =
    | Undefined
    | Null
    | Bool(b: bool)
    | Number(n: real)
    | NaN
    | Str(s: string)
    | Object

  /** `!!v` in JavaScript: false exactly for undefined, null, false, 0, NaN and "". */
  predicate Truthy(v: JsValue) {
    match v
    case Undefined => false
    case Null => false
    case Bool(b) => b
    case Number(n) => n != 0.0
    case NaN => false
    case Str(s) => s != ""
    case Object => true
  }

  /** The code points matched by `\s` in an ECMAScript regular expression:
      WhiteSpace (tab, vertical tab, form feed, zero-width no-break space and
      every space separator of Unicode category Zs) and LineTerminator
      (line feed, carriage return, line and paragraph separator). */
  predicate IsWhiteSpace(c: char) {
    || c == '\U{0009}' || c == '\U{000B}' || c == '\U{000C}' || c == '\U{FEFF}'
    || c == '\U{0020}' || c == '\U{00A0}' || c == '\U{1680}'
    || ('\U{2000}' <= c <= '\U{200A}')
    || c == '\U{202F}' || c == '\U{205F}' || c == '\U{3000}'
    || c == '\U{000A}' || c == '\U{000D}' || c == '\U{2028}' || c == '\U{2029}'
  }

  /** Number of UTF-16 code units a code point takes: two above the Basic
      Multilingual Plane, one otherwise. */
  function CodeUnits(c: char): (n: nat)
    ensures n == 1 || n == 2
    ensures n == 2 <==> c as int > 0xFFFF
  {
    if c as int > 0xFFFF then 2 else 1
  }

  /** `s.length` in JavaScript, which counts UTF-16 code units. */
  function Utf16Length(s: string): (n: nat)
    ensures |s| <= n <= 2 * |s|
    ensures n == 0 <==> s == []
  {
    if s == [] then 0 else CodeUnits(s[0]) + Utf16Length(s[1..])
  }
}
