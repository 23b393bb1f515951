/**
 * What the exporters receive from the php-ast extension: a syntax tree whose
 * nodes are `ast\Node` objects (with the extra properties of `ast\Node\Decl`
 * on declarations) and whose leaves are plain PHP values, together with the
 * extension's lookup functions, which are not part of this model and are
 * therefore passed in as parameters.
 */
module Ast {

  datatype Option<T> = None | Some(value: T)

  /**
   * Flags are PHP integers used as bit sets: a 64-bit pattern here, so that
   * `&` is the machine's bitwise and.
   */
  type Bits = bv64

  /** The value of a 64-bit pattern read as a two's complement PHP integer. */
  function SignedValue(b: Bits): int
  {
    if b < 0x8000_0000_0000_0000 then b as int else (b as int) - 0x1_0000_0000_0000_0000
  }

  /**
   * One flag table of `get_flag_info()`: flag value => name, in declaration
   * order. A PHP array holds each key once, so the tables it stands for have
   * distinct keys (`Flags.DistinctKeys`); the type itself allows repeats, and
   * `Flags.Lookup` then takes the first entry.
   */
  type FlagTable = seq<(Bits, string)>

  /**
   * The two arrays returned by `get_flag_info()`: kind => table, one for the
   * kinds whose flags are mutually exclusive and one for the kinds whose
   * flags combine as a bit set.
   */
  datatype FlagInfo = FlagInfo(exclusive: map<int, FlagTable>, combinable: map<int, FlagTable>)

  /**
   * The foreign part of php-ast: `ast\get_kind_name`, `ast\kind_uses_flags`
   * and `get_flag_info()` from util.php.
   */
  datatype Php = Php(kindName: int -> string, usesFlags: int -> bool, flagInfo: FlagInfo)

  /**
   * An AST value. `Node` is an `ast\Node`; `endLineno`, `name` and
   * `docComment` are `Some` exactly when the property is set (declaration
   * nodes). The other variants are the plain values that occur as children:
   * strings, null, integers and floats (whose text is left abstract).
   */
  datatype Value =
    | Node(kind: int, flags: Bits, lineno: int, children: seq<Value>,
           endLineno: Option<int>, name: Option<string>, docComment: Option<string>)
    | Str(text: string)
    | Null
    | Integer(number: int)
    | Float(repr: string)

  /** The measure used by the walkers: a node, then its children one by one. */
  function Rank(v: Value): nat
  {
    if v.Node? then |v.children| + 1 else 0
  }

  /** Number of values in the tree: every node and every plain value counts once. */
  function Size(v: Value): (n: nat)
    ensures n >= 1
    decreases v, Rank(v)
  {
    if v.Node? then 1 + ChildrenSize(v, |v.children|) else 1
  }

  /** Total size of the first `k` children of node `v`. */
  function ChildrenSize(v: Value, k: nat): nat
    requires v.Node? && k <= |v.children|
    decreases v, k
  {
    if k == 0 then 0 else ChildrenSize(v, k - 1) + Size(v.children[k - 1])
  }

  /** `gettype()` of a plain value, which the exporters write as the node type. */
  function TypeName(v: Value): string
    requires !v.Node?
  {
    match v
    case Str(_) => "string"
    case Null => "NULL"
    case Integer(_) => "integer"
    case Float(_) => "double"
  }
}
