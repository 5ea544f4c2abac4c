/** Values of a parsed argument set, JavaScript truthiness and the ordered
    dictionaries the engine reads its inputs from. */
module Values {

  datatype Option<+T> = None | Some(value: T)

  /** A JavaScript value as it can appear in a parsed argument set. Numbers are
      modelled as integers; `Obj` stands for any non-array object. */
  datatype Value =
    | Undefined
    | Null
    | Bool(b: bool)
    | Num(n: int)
    | Str(s: string)
    | Arr(elems: seq<Value>)
    | Obj

  /** JavaScript truthiness. */
  predicate Truthy(v: Value)
  {
    match v
    case Undefined => false
    case Null => false
    case Bool(b) => b
    case Num(n) => n != 0
    case Str(s) => s != ""
    case Arr(_) => true
    case Obj => true
  }

  /** `===`: primitives compare by value; two arrays or objects are never the
      same reference here, because a choice list and a parsed value never share one. */
  predicate StrictEquals(a: Value, b: Value)
  {
    a == b && !a.Arr? && !a.Obj?
  }

  /** `[].concat(v)`: an array contributes its elements, anything else itself. */
  function Spread(v: Value): (r: seq<Value>)
    ensures v.Arr? ==> r == v.elems
    ensures !v.Arr? ==> r == [v]
  {
    if v.Arr? then v.elems else [v]
  }

  predicate Distinct<T(==)>(s: seq<T>)
  {
    forall i, j :: 0 <= i < j < |s| ==> s[i] != s[j]
  }

  /** A plain JavaScript object: its own keys in `Object.keys` order and the
      value of each. */
  datatype RawDict<V> = RawDict(keys: seq<string>, vals: map<string, V>)

  type Dict<V> = d: RawDict<V> | Distinct(d.keys) && (forall k :: k in d.vals <==> k in d.keys)
    witness RawDict([], map[])

  /** `argv[key]`: `undefined` when the key is not an own property. */
  function Get(argv: Dict<Value>, key: string): (v: Value)
    ensures key !in argv.keys ==> v == Undefined
  {
    if key in argv.vals then argv.vals[key] else Undefined
  }

  /** `argv._`, the positional tokens; an argument set without an array there has none. */
  function Positional(argv: Dict<Value>): seq<Value>
  {
    match Get(argv, "_")
    case Arr(es) => es
    case _ => []
  }

  /** The keys the parser reserves: the program name, the `--` separator and the positionals. */
  predicate IsSpecialKey(key: string)
  {
    key == "$0" || key == "--" || key == "_"
  }
}
