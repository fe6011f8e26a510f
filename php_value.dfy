/**
 * The PHP values an option can hold, and the language rules the option accessors
 * depend on: truthiness and `empty()`, reading `$v[$key]`, `isset($v[$key])` and
 * the `(int)` cast.
 */
module PhpValue {
  import opened PhpNumber

  /** A PHP value; arrays are keyed by string (the keys used here are never integers). */
  datatype Value =
    | Null
    | Bool(b: bool)
    | Int(i: int)
    | Float(x: real)
    | Str(s: string)
    | Arr(entries: map<string, Value>)

  /** PHP truthiness: null, false, 0, 0.0, "", "0" and the empty array are falsy. */
  predicate Truthy(v: Value) {
    match v
    case Null => false
    case Bool(b) => b
    case Int(i) => i != 0
    case Float(x) => x != 0.0
    case Str(s) => s != "" && s != "0"
    case Arr(m) => m != map[]
  }

  /** `empty($v)`. */
  predicate IsEmpty(v: Value) {
    !Truthy(v)
  }

  /** `$v[$key]` where it is read: the entry of an array, null when the key is missing or `$v` is no array. */
  function Index(v: Value, key: string): (r: Value)
    ensures r != Null ==> v.Arr? && key in v.entries && r == v.entries[key]
    ensures v.Arr? && key in v.entries ==> r == v.entries[key]
  {
    match v
    case Arr(m) => if key in m then m[key] else Null
    case _ => Null
  }

  /** `isset($v[$key])`: the key is present and its value is not null. */
  predicate IsSetAt(v: Value, key: string) {
    Index(v, key) != Null
  }

  /** `(int)$v`. */
  function ToInt(v: Value): int {
    match v
    case Null => 0
    case Bool(b) => if b then 1 else 0
    case Int(i) => i
    case Float(x) => Truncate(FloatNum(x))
    case Str(s) => IntCast(s)
    case Arr(m) => if m == map[] then 0 else 1
  }

  /** Indexing a truthy entry out of a value means the value is a non-empty array, hence truthy itself. */
  lemma TruthyEntryTruthyContainer(v: Value, key: string)
    requires Truthy(Index(v, key))
    ensures v.Arr? && key in v.entries && Truthy(v)
  {
    assert key in v.entries.Keys;
  }
}
