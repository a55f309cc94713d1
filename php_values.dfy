/** The dynamically typed values a record's state and an identifier can hold. */
module PhpValues {

  datatype PhpValue = Null | Bool(b: bool) | Int(i: int) | Str(s: string)

  /** Identifiers accepted by a repository's find. */
  datatype Key = IntKey(n: int) | StrKey(s: string)

  /** PHP's conversion to bool: null, false, 0, "" and "0" are false. */
  predicate Truthy(v: PhpValue) {
    match v
    case Null => false
    case Bool(b) => b
    case Int(i) => i != 0
    case Str(s) => s != "" && s != "0"
  }

  /** The state toggleState stores: the boolean negation `!state`. */
  function Toggled(v: PhpValue): (r: PhpValue)
    ensures r.Bool?
    ensures Truthy(r) == !Truthy(v)
  {
    Bool(!Truthy(v))
  }

  /** The state switchState stores: 0 when the old state is identical to the integer 1, otherwise 1. */
  function Switched(v: PhpValue): (n: int)
    ensures n == 0 || n == 1
    ensures n == 0 <==> v == Int(1)
  {
    if v == Int(1) then 0 else 1
  }

  /** Two toggles give back the truth value of the original state, as a boolean. */
  lemma ToggleTwice(v: PhpValue)
    ensures Toggled(Toggled(v)) == Bool(Truthy(v))
  {
  }

  /** Two toggles restore a boolean state exactly. */
  lemma ToggleTwiceRestoresBool(b: bool)
    ensures Toggled(Toggled(Bool(b))) == Bool(b)
  {
    ToggleTwice(Bool(b));
  }

  /** Two switches restore a state of 0 or 1; any other state ends at 0. */
  lemma SwitchTwice(v: PhpValue)
    ensures Switched(Int(Switched(v))) == (if v == Int(0) || v == Int(1) then v.i else 0)
  {
  }

  /** The strict test: true and "1" are not identical to 1, so they switch to 1. */
  lemma SwitchIsStrict()
    ensures Switched(Bool(true)) == 1 && Switched(Str("1")) == 1 && Switched(Int(1)) == 0
  {
  }
}
