/**
 * The generic tree an XML deserializer hands to the importer: every element
 * is a plain object whose child elements are arrays (one array per tag name),
 * whose text is a string and whose text-with-attributes form is an object
 * carrying its text under the `_` key.
 */
module SourceTree {

  import opened Wrappers

  /**
   * One value of the parsed document, by its JavaScript shape. An object's
   * own `_` property lives in `body` only; `fields` holds its other keys, so
   * `fields` never has the key "_".
   */
  datatype Node =
    | Str(s: string)                                       // a string
    | List(items: seq<Node>)                               // an array
    | Obj(fields: map<string, Node>, body: Option<string>) // a plain object; `body` is its own `_` property
    | Null                                                 // null
    | Undefined                                            // undefined, or a missing property

  /** Values on which property access throws a TypeError. */
  predicate IsNullish(n: Node) {
    n.Null? || n.Undefined?
  }

  /** JavaScript truthiness: null, undefined and the empty string are falsy; arrays and objects are truthy. */
  predicate Truthy(n: Node) {
    !(n.Null? || n.Undefined? || n == Str(""))
  }

  /** Property access `n[key]` for a non-numeric key. Strings and arrays have no such own properties. */
  function Get(n: Node, key: string): Node
    requires !IsNullish(n)
  {
    match n
    case Obj(fields, body) =>
      if key == "_" then (if body.Some? then Str(body.value) else Undefined)
      else if key in fields then fields[key]
      else Undefined
    case _ => Undefined
  }

  /** A value that `x || []` followed by `forEach`, or `if (x) x.forEach`, can iterate without throwing. */
  predicate IsListOrFalsy(n: Node) {
    n.List? || !Truthy(n)
  }

  /** What `forEach` visits: the array's elements, or nothing for a falsy value. */
  function Items(n: Node): seq<Node>
    requires IsListOrFalsy(n)
  {
    if n.List? then n.items else []
  }

  /** Index access `n[0]`: the first element of an array, the first character of a string. */
  function First(n: Node): Node
    requires !IsNullish(n)
  {
    match n
    case List(items) => if |items| > 0 then items[0] else Undefined
    case Str(s) => if |s| > 0 then Str(s[..1]) else Undefined
    case Obj(fields, _) => if "0" in fields then fields["0"] else Undefined
    case _ => Undefined
  }
}
