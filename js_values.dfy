/**
 * The JavaScript value semantics the handlers depend on: how a destructured
 * request-body property looks, which values `!x` treats as false, and the
 * strict comparison used by the list guard of getAllArticle.
 */
module JsValues {

  /** A property read from a JSON request body: absent (`undefined`), JSON `null`, or a string. */
  datatype Field = Omitted | Null | Str(s: string)

  /** `!f` holds for `undefined`, `null` and the empty string. */
  predicate IsFalsy(f: Field) {
    f.Omitted? || f.Null? || f == Str("")
  }

  /** The two kinds of value that meet in `!articles.length === 0`. */
  datatype JsValue = Bool(b: bool) | Number(n: int)

  predicate Truthy(v: JsValue) {
    match v
    case Bool(b) => b
    case Number(n) => n != 0
  }

  /** Logical not always yields a boolean. */
  function Not(v: JsValue): JsValue {
    Bool(!Truthy(v))
  }

  /** `===` holds only between values of the same type that are equal. */
  predicate StrictEquals(x: JsValue, y: JsValue) {
    x == y
  }

  /**
   * `!articles.length === 0` parses as `(!articles.length) === 0`: a boolean
   * compared strictly with a number, which never holds, whatever the length.
   */
  lemma NegatedLengthNeverStrictlyZero(length: nat)
    ensures !StrictEquals(Not(Number(length)), Number(0))
  {
  }
}
