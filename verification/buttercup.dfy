/**
 * The destination archive, seen only through the four operations the
 * importer calls on it: create a group under a container, create an entry
 * in a group, set one of an entry's properties, set one of its meta values.
 */
module Buttercup {

  /** A credential record: named properties (title, username, password) and free-form meta values. */
  datatype Entry = Entry(properties: map<string, string>, meta: map<string, string>)

  /** A named group owning its child groups and its entries, both in creation order. */
  datatype Group = Group(name: string, groups: seq<Group>, entries: seq<Entry>)

  /** The archive root: its top-level groups in creation order. */
  datatype Archive = Archive(groups: seq<Group>)

  /** `createGroup(name)`: a group with no children yet. */
  function NewGroup(name: string): Group {
    Group(name, [], [])
  }

  /** `createEntry()`: an entry with nothing set. */
  function NewEntry(): Entry {
    Entry(map[], map[])
  }

  /** `setProperty(name, value)`: `name` now holds `value`; other properties and all meta values stay. */
  function SetProperty(e: Entry, name: string, value: string): (r: Entry)
    ensures name in r.properties && r.properties[name] == value
    ensures forall k :: k != name ==> (k in r.properties <==> k in e.properties)
    ensures forall k :: k != name && k in e.properties ==> r.properties[k] == e.properties[k]
    ensures r.meta == e.meta
  {
    e.(properties := e.properties[name := value])
  }

  /** `setMeta(key, value)`: `key` now holds `value`; other meta values and all properties stay. */
  function SetMeta(e: Entry, key: string, value: string): (r: Entry)
    ensures key in r.meta && r.meta[key] == value
    ensures forall k :: k != key ==> (k in r.meta <==> k in e.meta)
    ensures forall k :: k != key && k in e.meta ==> r.meta[k] == e.meta[k]
    ensures r.properties == e.properties
  {
    e.(meta := e.meta[key := value])
  }

  function Sum(xs: seq<nat>): nat {
    if xs == [] then 0 else xs[0] + Sum(xs[1..])
  }

  /** Number of groups in a forest, at every depth. */
  function GroupCount(gs: seq<Group>): nat {
    Sum(seq(|gs|, i requires 0 <= i < |gs| => 1 + GroupCount(gs[i].groups)))
  }

  /** Number of entries in a forest, at every depth. */
  function EntryCount(gs: seq<Group>): nat {
    Sum(seq(|gs|, i requires 0 <= i < |gs| => |gs[i].entries| + EntryCount(gs[i].groups)))
  }

  /** The outline of a group tree: names, nesting and order, with each group's entries only counted. */
  datatype Shape = Shape(name: string, groups: seq<Shape>, entries: nat)

  function ShapeOf(g: Group): Shape {
    Shape(g.name, seq(|g.groups|, i requires 0 <= i < |g.groups| => ShapeOf(g.groups[i])), |g.entries|)
  }
}
