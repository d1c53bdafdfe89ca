/**
 * The KeePass 2.x XML importer: walks the parsed document from its root
 * group down, creating one destination group per source `Group` element and
 * one destination entry per `Entry` element of a group, and routing every
 * `String` key/value pair of an entry either to a property (title, username,
 * password) or to the entry's meta values.
 */
module Importer {

  import opened Wrappers
  import opened SourceTree
  import opened Text
  import opened Buttercup

  /** The keys, lower-cased, that become entry properties. */
  const PrimaryFields: seq<string> := ["title", "username", "password"]

  // ---------------------------------------------------------------------
  // Which parse trees the walk gets through without a TypeError

  /** A `String` pair: property access on it and `extractString` of its `Key` and `Value` succeed. */
  predicate PairWalkable(kv: Node) {
    && !IsNullish(kv)
    && Extractable(Get(kv, "Key"))
    && Extractable(Get(kv, "Value"))
  }

  /** An `Entry` element whose `String` list can be iterated pair by pair. */
  predicate EntryWalkable(e: Node) {
    && !IsNullish(e)
    && IsListOrFalsy(Get(e, "String"))
    && var kvs := Items(Get(e, "String"));
       forall k :: 0 <= k < |kvs| ==> PairWalkable(kvs[k])
  }

  /** A node handed to `processGroup`: its `Group` list, and every subgroup in it, can be walked. */
  predicate Walkable(n: Node)
    ensures Walkable(n) ==> !IsNullish(n)
    decreases n, 1
  {
    && !IsNullish(n)
    && IsListOrFalsy(Get(n, "Group"))
    && var subs := Items(Get(n, "Group"));
       forall i :: 0 <= i < |subs| ==> SubgroupWalkable(subs[i])
  }

  /** One element of a `Group` list: its name, its own subgroups and its entries can be read. */
  predicate SubgroupWalkable(s: Node)
    ensures SubgroupWalkable(s) ==> !IsNullish(s) && Walkable(s)
    decreases s, 2
  {
    && !IsNullish(s)
    && Extractable(Get(s, "Name"))
    && Walkable(s)
    && IsListOrFalsy(Get(s, "Entry"))
    && var es := Items(Get(s, "Entry"));
       forall j :: 0 <= j < |es| ==> EntryWalkable(es[j])
  }

  /** The `Entry` elements of a subgroup, or none when its `Entry` list is missing. */
  function EntryNodes(subgroup: Node): seq<Node>
    requires SubgroupWalkable(subgroup)
  {
    Items(Get(subgroup, "Entry"))
  }

  // ---------------------------------------------------------------------
  // Key routing

  function KeyOf(kv: Node): string
    requires PairWalkable(kv)
  {
    ExtractString(Get(kv, "Key"))
  }

  function ValueOf(kv: Node): string
    requires PairWalkable(kv)
  {
    ExtractString(Get(kv, "Value"))
  }

  /** The pair sets property `name`: its key, lower-cased, is `name`, and `name` is a primary field. */
  predicate SetsProperty(kv: Node, name: string) {
    PairWalkable(kv) && LowerCase(KeyOf(kv)) == name && name in PrimaryFields
  }

  /** The pair sets meta value `key`: its key is exactly `key`, and `key` is not a primary field in any casing. */
  predicate SetsMeta(kv: Node, key: string) {
    PairWalkable(kv) && KeyOf(kv) == key && LowerCase(key) !in PrimaryFields
  }

  /**
   * Every pair sets exactly one thing: a property under the lower-cased key,
   * or meta under the key as written. A pair whose key is a primary field in
   * some casing leaves the meta values alone; any other pair leaves the
   * properties alone.
   */
  lemma RoutingIsExclusive(e: Entry, kv: Node)
    requires PairWalkable(kv)
    ensures SetsProperty(kv, LowerCase(KeyOf(kv))) != SetsMeta(kv, KeyOf(kv))
    ensures LowerCase(KeyOf(kv)) in PrimaryFields ==> ApplyPair(e, kv).meta == e.meta
    ensures LowerCase(KeyOf(kv)) !in PrimaryFields ==> ApplyPair(e, kv).properties == e.properties
  {
  }

  /**
   * Keys that differ only in the case of ASCII letters (`Title`, `TITLE`,
   * `title`) target the same property, and, with the same value, leave the
   * same properties behind.
   */
  lemma RoutingIgnoresCase(e: Entry, kv1: Node, kv2: Node)
    requires PairWalkable(kv1) && PairWalkable(kv2)
    requires SameUpToCase(KeyOf(kv1), KeyOf(kv2))
    requires ValueOf(kv1) == ValueOf(kv2)
    ensures forall name :: SetsProperty(kv1, name) <==> SetsProperty(kv2, name)
    ensures ApplyPair(e, kv1).properties == ApplyPair(e, kv2).properties
  {
    LowerCaseOfVariants(KeyOf(kv1), KeyOf(kv2));
  }

  /** One step of the `String` loop: the pair's value goes to a property or to meta. */
  function ApplyPair(e: Entry, kv: Node): Entry
    requires PairWalkable(kv)
  {
    var actualKey := KeyOf(kv);
    var actualValue := ValueOf(kv);
    var friendlyKey := LowerCase(actualKey);
    if friendlyKey in PrimaryFields then SetProperty(e, friendlyKey, actualValue)
    else SetMeta(e, actualKey, actualValue)
  }

  /** The `String` loop over `kvs`, in document order, starting from `e`. */
  function ApplyPairs(e: Entry, kvs: seq<Node>): Entry
    requires forall k :: 0 <= k < |kvs| ==> PairWalkable(kvs[k])
  {
    if kvs == [] then e
    else ApplyPair(ApplyPairs(e, kvs[..|kvs| - 1]), kvs[|kvs| - 1])
  }

  /** One pair leaves property `name` alone unless it sets it, and then `name` holds the pair's value. */
  lemma ApplyPairProperty(e: Entry, kv: Node, name: string)
    requires PairWalkable(kv)
    ensures var r := ApplyPair(e, kv);
            if SetsProperty(kv, name) then name in r.properties && r.properties[name] == ValueOf(kv)
            else (name in r.properties <==> name in e.properties) &&
                 (name in e.properties ==> r.properties[name] == e.properties[name])
  {
  }

  /** One pair leaves meta value `key` alone unless it sets it, and then `key` holds the pair's value. */
  lemma ApplyPairMeta(e: Entry, kv: Node, key: string)
    requires PairWalkable(kv)
    ensures var r := ApplyPair(e, kv);
            if SetsMeta(kv, key) then key in r.meta && r.meta[key] == ValueOf(kv)
            else (key in r.meta <==> key in e.meta) &&
                 (key in e.meta ==> r.meta[key] == e.meta[key])
  {
  }

  /** A property that no pair sets keeps its old state. */
  lemma {:induction false} PropertyUntouched(e: Entry, kvs: seq<Node>, name: string)
    requires forall k :: 0 <= k < |kvs| ==> PairWalkable(kvs[k])
    requires forall i :: 0 <= i < |kvs| ==> !SetsProperty(kvs[i], name)
    ensures var r := ApplyPairs(e, kvs);
            (name in r.properties <==> name in e.properties) &&
            (name in e.properties ==> r.properties[name] == e.properties[name])
    decreases |kvs|
  {
    if kvs != [] {
      var n := |kvs| - 1;
      PropertyUntouched(e, kvs[..n], name);
      ApplyPairProperty(ApplyPairs(e, kvs[..n]), kvs[n], name);
    }
  }

  /** A property that some pair sets holds the value of the last pair that sets it. */
  lemma {:induction false} PropertyLastWins(e: Entry, kvs: seq<Node>, name: string, i: nat)
    requires forall k :: 0 <= k < |kvs| ==> PairWalkable(kvs[k])
    requires i < |kvs| && SetsProperty(kvs[i], name)
    requires forall j :: i < j < |kvs| ==> !SetsProperty(kvs[j], name)
    ensures var r := ApplyPairs(e, kvs);
            name in r.properties && r.properties[name] == ValueOf(kvs[i])
    decreases |kvs|
  {
    var n := |kvs| - 1;
    var init := kvs[..n];
    assert ApplyPairs(e, kvs) == ApplyPair(ApplyPairs(e, init), kvs[n]);
    if i == n {
      ApplyPairProperty(ApplyPairs(e, init), kvs[n], name);
    } else {
      assert !SetsProperty(kvs[n], name);
      forall j | i <= j < |init| ensures init[j] == kvs[j] { }
      PropertyLastWins(e, init, name, i);
      ApplyPairProperty(ApplyPairs(e, init), kvs[n], name);
    }
  }

  /** A meta value that no pair sets keeps its old state. */
  lemma {:induction false} MetaUntouched(e: Entry, kvs: seq<Node>, key: string)
    requires forall k :: 0 <= k < |kvs| ==> PairWalkable(kvs[k])
    requires forall i :: 0 <= i < |kvs| ==> !SetsMeta(kvs[i], key)
    ensures var r := ApplyPairs(e, kvs);
            (key in r.meta <==> key in e.meta) &&
            (key in e.meta ==> r.meta[key] == e.meta[key])
    decreases |kvs|
  {
    if kvs != [] {
      var n := |kvs| - 1;
      MetaUntouched(e, kvs[..n], key);
      ApplyPairMeta(ApplyPairs(e, kvs[..n]), kvs[n], key);
    }
  }

  /** A meta value that some pair sets holds the value of the last pair that sets it. */
  lemma {:induction false} MetaLastWins(e: Entry, kvs: seq<Node>, key: string, i: nat)
    requires forall k :: 0 <= k < |kvs| ==> PairWalkable(kvs[k])
    requires i < |kvs| && SetsMeta(kvs[i], key)
    requires forall j :: i < j < |kvs| ==> !SetsMeta(kvs[j], key)
    ensures var r := ApplyPairs(e, kvs);
            key in r.meta && r.meta[key] == ValueOf(kvs[i])
    decreases |kvs|
  {
    var n := |kvs| - 1;
    var init := kvs[..n];
    assert ApplyPairs(e, kvs) == ApplyPair(ApplyPairs(e, init), kvs[n]);
    if i == n {
      ApplyPairMeta(ApplyPairs(e, init), kvs[n], key);
    } else {
      assert !SetsMeta(kvs[n], key);
      forall j | i <= j < |init| ensures init[j] == kvs[j] { }
      MetaLastWins(e, init, key, i);
      ApplyPairMeta(ApplyPairs(e, init), kvs[n], key);
    }
  }

  /** Properties hold only primary fields; meta holds no key that lower-cases to one. */
  predicate BucketsSeparated(e: Entry) {
    && (forall name :: name in e.properties ==> name in PrimaryFields)
    && (forall key :: key in e.meta ==> LowerCase(key) !in PrimaryFields)
  }

  /** Applying pairs never puts a key into the wrong bucket. */
  lemma {:induction false} ApplyPairsKeepsBucketsSeparated(e: Entry, kvs: seq<Node>)
    requires forall k :: 0 <= k < |kvs| ==> PairWalkable(kvs[k])
    requires BucketsSeparated(e)
    ensures BucketsSeparated(ApplyPairs(e, kvs))
    decreases |kvs|
  {
    if kvs != [] {
      ApplyPairsKeepsBucketsSeparated(e, kvs[..|kvs| - 1]);
    }
  }

  // ---------------------------------------------------------------------
  // What the walk builds, as values

  /** The entry a source `Entry` element becomes. */
  function EntryOf(subentry: Node): Entry
    requires EntryWalkable(subentry)
  {
    ApplyPairs(NewEntry(), Items(Get(subentry, "String")))
  }

  /** Every entry the walk creates keeps its properties and its meta values apart. */
  lemma EntryOfBucketsSeparated(subentry: Node)
    requires EntryWalkable(subentry)
    ensures BucketsSeparated(EntryOf(subentry))
  {
    ApplyPairsKeepsBucketsSeparated(NewEntry(), Items(Get(subentry, "String")));
  }

  /** The entries of a source subgroup, one per `Entry` element, in order. */
  function EntriesOf(subgroup: Node): seq<Entry>
    requires SubgroupWalkable(subgroup)
  {
    var es := EntryNodes(subgroup);
    seq(|es|, j requires 0 <= j < |es| => EntryOf(es[j]))
  }

  /** The groups created under the container for node `n`: one per element of its `Group` list, in order. */
  function ChildrenOf(n: Node): seq<Group>
    requires Walkable(n)
    decreases n, 0
  {
    var subs := Items(Get(n, "Group"));
    seq(|subs|, i requires 0 <= i < |subs| => GroupOf(subs[i]))
  }

  /** The group a source subgroup becomes: its name, its own children, then its entries. */
  function GroupOf(subgroup: Node): Group
    requires SubgroupWalkable(subgroup)
    decreases subgroup, 1
  {
    Group(ExtractString(Get(subgroup, "Name")), ChildrenOf(subgroup), EntriesOf(subgroup))
  }

  // ---------------------------------------------------------------------
  // The walk itself

  /** The callback for one `Entry` element: create an entry, then apply its `String` pairs in order. */
  method ProcessEntry(subentry: Node) returns (entry: Entry)
    requires EntryWalkable(subentry)
    ensures entry == EntryOf(subentry)
  {
    entry := NewEntry();
    if Truthy(Get(subentry, "String")) {
      var kvs := Items(Get(subentry, "String"));
      var k := 0;
      while k < |kvs|
        invariant 0 <= k <= |kvs|
        invariant entry == ApplyPairs(NewEntry(), kvs[..k])
      {
        var keyValuePair := kvs[k];
        var actualKey := ExtractString(Get(keyValuePair, "Key"));
        var actualValue := ExtractString(Get(keyValuePair, "Value"));
        var friendlyKey := LowerCase(actualKey);
        if friendlyKey in PrimaryFields {
          entry := SetProperty(entry, friendlyKey, actualValue);
        } else {
          entry := SetMeta(entry, actualKey, actualValue);
        }
        assert kvs[..k + 1][..k] == kvs[..k];
        k := k + 1;
      }
      assert kvs[..k] == kvs;
    }
  }

  /**
   * `processGroup`: appends to `container` (the archive's or a group's child
   * list) one group per element of `group`'s `Group` list, in order.
   */
  method ProcessGroup(group: Node, container: seq<Group>) returns (result: seq<Group>)
    requires Walkable(group)
    ensures result == container + ChildrenOf(group)
    decreases group, 0
  {
    var subgroups := Items(Get(group, "Group"));
    result := container;
    var i := 0;
    while i < |subgroups|
      invariant 0 <= i <= |subgroups|
      invariant result == container + ChildrenOf(group)[..i]
    {
      var created := ProcessSubgroup(subgroups[i]);
      assert ChildrenOf(group)[..i + 1] == ChildrenOf(group)[..i] + [created];
      result := result + [created];
      i := i + 1;
    }
    assert ChildrenOf(group)[..i] == ChildrenOf(group);
  }

  /**
   * The callback for one element of a `Group` list: create the group under
   * its name, fill in its own subgroups when it has a `Group` list, then one
   * entry per element of its `Entry` list.
   */
  method ProcessSubgroup(subgroup: Node) returns (created: Group)
    requires SubgroupWalkable(subgroup)
    ensures created == GroupOf(subgroup)
    decreases subgroup, 1
  {
    ghost var entries := EntriesOf(subgroup);
    created := NewGroup(ExtractString(Get(subgroup, "Name")));
    if Truthy(Get(subgroup, "Group")) {
      var children := ProcessGroup(subgroup, created.groups);
      created := created.(groups := children);
    }
    assert created.groups == ChildrenOf(subgroup);
    if Truthy(Get(subgroup, "Entry")) {
      var subentries := Items(Get(subgroup, "Entry"));
      var j := 0;
      while j < |subentries|
        invariant 0 <= j <= |subentries|
        invariant created == GroupOf(subgroup).(entries := entries[..j])
      {
        var entry := ProcessEntry(subentries[j]);
        assert entries[..j + 1] == entries[..j] + [entry];
        created := created.(entries := created.entries + [entry]);
        j := j + 1;
      }
      assert entries[..j] == entries;
    } else {
      assert entries == [];
    }
  }

  // ---------------------------------------------------------------------
  // Root lookup and exportArchive

  /** The value of `keepassJS.KeePassFile.Root[0]`, or `None` when that expression throws. */
  function RootGroup(doc: Node): (r: Option<Node>)
    ensures r.None? <==>
            || IsNullish(doc)
            || IsNullish(Get(doc, "KeePassFile"))
            || IsNullish(Get(Get(doc, "KeePassFile"), "Root"))
  {
    if IsNullish(doc) then None
    else
      var file := Get(doc, "KeePassFile");
      if IsNullish(file) then None
      else
        var root := Get(file, "Root");
        if IsNullish(root) then None
        else Some(First(root))
  }

  /** `rootGroup || {}`: the node the walk starts from. */
  function StartNode(doc: Node): (n: Node)
    ensures Truthy(n)
  {
    match RootGroup(doc)
    case Some(root) => if Truthy(root) then root else Obj(map[], None)
    case None => Obj(map[], None)
  }

  /**
   * The `then` callback of `exportArchive` together with its `catch`: the
   * archive filled from the start node, or `None` when the walk throws.
   */
  method ExportArchive(doc: Node) returns (r: Option<Archive>)
    ensures var start := StartNode(doc);
            r == if Walkable(start) then Some(Archive(ChildrenOf(start))) else None
  {
    var start := StartNode(doc);
    if !Walkable(start) {
      return None;
    }
    var groups := ProcessGroup(start, []);
    assert groups == ChildrenOf(start);
    r := Some(Archive(groups));
  }

  // ---------------------------------------------------------------------
  // Properties of the conversion

  /**
   * A document without a usable `KeePassFile.Root[0]` (the lookup throws, or
   * gives a falsy value such as `undefined` for `Root: []` or "" for an empty
   * `<Root/>`) converts, and to an archive without groups or entries.
   */
  lemma MissingRootGivesEmptyArchive(doc: Node)
    requires RootGroup(doc).None? || !Truthy(RootGroup(doc).value)
    ensures Walkable(StartNode(doc))
    ensures ChildrenOf(StartNode(doc)) == []
    ensures GroupCount(ChildrenOf(StartNode(doc))) == 0 && EntryCount(ChildrenOf(StartNode(doc))) == 0
  {
    var start := StartNode(doc);
    assert Items(Get(start, "Group")) == [];
    assert ChildrenOf(start) == [];
    assert seq(0, i requires 0 <= i < 0 => 0) == [];
  }

  /** The walk starts from the first element of `KeePassFile.Root` whenever that element is truthy. */
  lemma StartNodeIsFirstRoot(docFields: map<string, Node>, docBody: Option<string>,
                             fileFields: map<string, Node>, fileBody: Option<string>,
                             root: Node, rest: seq<Node>)
    requires Truthy(root)
    ensures var file := Obj(fileFields["Root" := List([root] + rest)], fileBody);
            StartNode(Obj(docFields["KeePassFile" := file], docBody)) == root
  {
  }

  /** An empty `Root` list and an empty `<Root/>` both fall back to the empty start object. */
  lemma EmptyRootFallsBack(docFields: map<string, Node>, docBody: Option<string>,
                           fileFields: map<string, Node>, fileBody: Option<string>)
    ensures var file := Obj(fileFields["Root" := List([])], fileBody);
            var doc := Obj(docFields["KeePassFile" := file], docBody);
            RootGroup(doc) == Some(Undefined) && StartNode(doc) == Obj(map[], None)
    ensures var file := Obj(fileFields["Root" := List([Str("")])], fileBody);
            var doc := Obj(docFields["KeePassFile" := file], docBody);
            RootGroup(doc) == Some(Str("")) && StartNode(doc) == Obj(map[], None)
  {
  }

  /** The outline of a source subgroup: its name, its subgroups in order, its number of `Entry` elements. */
  function SourceShape(subgroup: Node): Shape
    requires SubgroupWalkable(subgroup)
    decreases subgroup
  {
    assert Walkable(subgroup);
    var subs := Items(Get(subgroup, "Group"));
    Shape(ExtractString(Get(subgroup, "Name")),
          seq(|subs|, i requires 0 <= i < |subs| => SourceShape(subs[i])),
          |EntryNodes(subgroup)|)
  }

  /** Each source subgroup becomes a group of the same outline: names, nesting, order and entry counts. */
  lemma {:induction false} ShapePreserved(subgroup: Node)
    requires SubgroupWalkable(subgroup)
    ensures ShapeOf(GroupOf(subgroup)) == SourceShape(subgroup)
    decreases subgroup
  {
    var g := GroupOf(subgroup);
    var subs := Items(Get(subgroup, "Group"));
    assert g.groups == ChildrenOf(subgroup);
    assert |g.groups| == |subs|;
    forall i | 0 <= i < |subs| ensures ShapeOf(g.groups[i]) == SourceShape(subs[i]) {
      ShapePreserved(subs[i]);
    }
    assert seq(|g.groups|, i requires 0 <= i < |g.groups| => ShapeOf(g.groups[i]))
        == seq(|subs|, i requires 0 <= i < |subs| => SourceShape(subs[i]));
  }

  /** Source `Group` elements below `n`, at every depth. */
  function SourceGroupCount(n: Node): nat
    requires Walkable(n)
    decreases n
  {
    var subs := Items(Get(n, "Group"));
    Sum(seq(|subs|, i requires 0 <= i < |subs| => 1 + SourceGroupCount(subs[i])))
  }

  /** Source `Entry` elements of the groups below `n`, at every depth; `n`'s own entries are not among them. */
  function SourceEntryCount(n: Node): nat
    requires Walkable(n)
    decreases n
  {
    var subs := Items(Get(n, "Group"));
    Sum(seq(|subs|, i requires 0 <= i < |subs| => |EntryNodes(subs[i])| + SourceEntryCount(subs[i])))
  }

  /** One destination group per source group below `n`, at every depth. */
  lemma {:induction false} GroupCountPreserved(n: Node)
    requires Walkable(n)
    ensures GroupCount(ChildrenOf(n)) == SourceGroupCount(n)
    decreases n
  {
    var gs := ChildrenOf(n);
    var subs := Items(Get(n, "Group"));
    forall i | 0 <= i < |subs|
      ensures gs[i] == GroupOf(subs[i])
      ensures GroupCount(gs[i].groups) == SourceGroupCount(subs[i])
    {
      GroupCountPreserved(subs[i]);
    }
    assert seq(|gs|, i requires 0 <= i < |gs| => 1 + GroupCount(gs[i].groups))
        == seq(|subs|, i requires 0 <= i < |subs| => 1 + SourceGroupCount(subs[i]));
  }

  /** One destination entry per source `Entry` element of the groups below `n`, at every depth. */
  lemma {:induction false} EntryCountPreserved(n: Node)
    requires Walkable(n)
    ensures EntryCount(ChildrenOf(n)) == SourceEntryCount(n)
    decreases n
  {
    var gs := ChildrenOf(n);
    var subs := Items(Get(n, "Group"));
    forall i | 0 <= i < |subs|
      ensures gs[i] == GroupOf(subs[i])
      ensures |gs[i].entries| + EntryCount(gs[i].groups) == |EntryNodes(subs[i])| + SourceEntryCount(subs[i])
    {
      EntryCountPreserved(subs[i]);
    }
    assert seq(|gs|, i requires 0 <= i < |gs| => |gs[i].entries| + EntryCount(gs[i].groups))
        == seq(|subs|, i requires 0 <= i < |subs| => |EntryNodes(subs[i])| + SourceEntryCount(subs[i]));
  }

  /** The walk creates exactly one group per source group and one entry per source entry below the start node. */
  lemma CountsPreserved(n: Node)
    requires Walkable(n)
    ensures GroupCount(ChildrenOf(n)) == SourceGroupCount(n)
    ensures EntryCount(ChildrenOf(n)) == SourceEntryCount(n)
  {
    GroupCountPreserved(n);
    EntryCountPreserved(n);
  }

  /** `Entry` elements sitting directly on the start node are never converted. */
  lemma TopLevelEntriesIgnored(fields: map<string, Node>, body: Option<string>, entries: Node)
    requires Walkable(Obj(fields, body))
    ensures Walkable(Obj(fields["Entry" := entries], body))
    ensures ChildrenOf(Obj(fields["Entry" := entries], body)) == ChildrenOf(Obj(fields, body))
  {
    assert Get(Obj(fields["Entry" := entries], body), "Group") == Get(Obj(fields, body), "Group");
  }

  // ---------------------------------------------------------------------
  // A worked example

  /** A text element as the deserializer gives it: an array holding one string. */
  function TextNode(text: string): Node {
    List([Str(text)])
  }

  /** A `String` element with its `Key` and `Value`. */
  function PairNode(key: string, value: string): Node {
    Obj(map["Key" := TextNode(key), "Value" := TextNode(value)], None)
  }

  /** A `String` element built by `PairNode` carries its key and value through `extractString`. */
  lemma PairNodeReads(key: string, value: string)
    ensures PairWalkable(PairNode(key, value))
    ensures KeyOf(PairNode(key, value)) == key && ValueOf(PairNode(key, value)) == value
  {
    assert Get(PairNode(key, value), "Key") == TextNode(key);
    assert Get(PairNode(key, value), "Value") == TextNode(value);
  }

  function InternetPairs(): seq<Node> {
    [PairNode("Title", "Mail"), PairNode("UserName", "me@x.com"),
     PairNode("Password", "secret"), PairNode("URL", "mail.example.com")]
  }

  /** An `Entry` element with its `String` pairs. */
  function EntryNode(pairs: seq<Node>): Node {
    Obj(map["String" := List(pairs)], None)
  }

  /** A `Group` element with a name and one entry, and no subgroups. */
  function LeafGroupNode(name: string, entry: Node): Node {
    Obj(map["Name" := TextNode(name), "Entry" := List([entry])], None)
  }

  /** A whole document whose root holds the one given group. */
  function DocumentNode(group: Node): Node {
    var root := Obj(map["Group" := List([group])], None);
    Obj(map["KeePassFile" := Obj(map["Root" := List([root])], None)], None)
  }

  /** A document whose root holds one group "Internet" with one entry of four `String` pairs. */
  function InternetDocument(): Node {
    DocumentNode(LeafGroupNode("Internet", EntryNode(InternetPairs())))
  }

  lemma EntryNodeConverts(pairs: seq<Node>)
    requires forall k :: 0 <= k < |pairs| ==> PairWalkable(pairs[k])
    ensures EntryWalkable(EntryNode(pairs))
    ensures EntryOf(EntryNode(pairs)) == ApplyPairs(NewEntry(), pairs)
  {
    assert Get(EntryNode(pairs), "String") == List(pairs);
  }

  lemma LeafGroupNodeConverts(name: string, entry: Node)
    requires EntryWalkable(entry)
    ensures SubgroupWalkable(LeafGroupNode(name, entry))
    ensures GroupOf(LeafGroupNode(name, entry)) == Group(name, [], [EntryOf(entry)])
  {
    var g := LeafGroupNode(name, entry);
    assert Get(g, "Name") == TextNode(name);
    assert Get(g, "Entry") == List([entry]);
    assert Get(g, "Group") == Undefined;
    assert Walkable(g);
    assert ChildrenOf(g) == [];
    assert EntriesOf(g) == [EntryOf(entry)];
  }

  lemma DocumentNodeConverts(group: Node)
    requires SubgroupWalkable(group)
    ensures Walkable(StartNode(DocumentNode(group)))
    ensures ChildrenOf(StartNode(DocumentNode(group))) == [GroupOf(group)]
  {
    var root := Obj(map["Group" := List([group])], None);
    var file := Obj(map["Root" := List([root])], None);
    assert Get(DocumentNode(group), "KeePassFile") == file;
    assert Get(file, "Root") == List([root]);
    assert StartNode(DocumentNode(group)) == root;
    assert Get(root, "Group") == List([group]);
  }

  /** How one pair routes when its lower-cased key is known, applied to any entry. */
  lemma PairNodeRoutes(e: Entry, key: string, value: string, friendly: string)
    requires LowerCase(key) == friendly
    ensures PairWalkable(PairNode(key, value))
    ensures ApplyPair(e, PairNode(key, value)) ==
            if friendly in PrimaryFields then SetProperty(e, friendly, value) else SetMeta(e, key, value)
  {
    PairNodeReads(key, value);
  }

  lemma TitleLowered() ensures LowerCase("Title") == "title" {}
  lemma UserNameLowered() ensures LowerCase("UserName") == "username" { LowerCaseInPlace("UserName"); }
  lemma PasswordLowered() ensures LowerCase("Password") == "password" { LowerCaseInPlace("Password"); }
  lemma UrlLowered() ensures LowerCase("URL") == "url" {}

  /** Applying a prefix one pair longer is one more `ApplyPair` step. */
  lemma ApplyPairsPrefix(e: Entry, kvs: seq<Node>, k: nat)
    requires forall j :: 0 <= j < |kvs| ==> PairWalkable(kvs[j])
    requires k < |kvs|
    ensures ApplyPairs(e, kvs[..k + 1]) == ApplyPair(ApplyPairs(e, kvs[..k]), kvs[k])
  {
    assert kvs[..k + 1][..k] == kvs[..k];
  }

  /** The entries the example's pairs build one after the other, ending with `InternetEntry()`. */
  function InternetEntryAfter(k: nat): Entry
    requires k <= 4
  {
    if k == 0 then NewEntry()
    else if k == 1 then SetProperty(InternetEntryAfter(0), "title", "Mail")
    else if k == 2 then SetProperty(InternetEntryAfter(1), "username", "me@x.com")
    else if k == 3 then SetProperty(InternetEntryAfter(2), "password", "secret")
    else SetMeta(InternetEntryAfter(3), "URL", "mail.example.com")
  }

  lemma InternetStep(k: nat)
    requires k < 4
    ensures PairWalkable(InternetPairs()[k])
    ensures ApplyPair(InternetEntryAfter(k), InternetPairs()[k]) == InternetEntryAfter(k + 1)
  {
    var e := InternetEntryAfter(k);
    if k == 0 {
      TitleLowered();
      PairNodeRoutes(e, "Title", "Mail", "title");
    } else if k == 1 {
      UserNameLowered();
      PairNodeRoutes(e, "UserName", "me@x.com", "username");
    } else if k == 2 {
      PasswordLowered();
      PairNodeRoutes(e, "Password", "secret", "password");
    } else {
      UrlLowered();
      assert "url" !in PrimaryFields;
      PairNodeRoutes(e, "URL", "mail.example.com", "url");
    }
  }

  /** The first `k` pairs of the example build `InternetEntryAfter(k)`. */
  lemma {:induction false} InternetPrefix(k: nat)
    requires k <= 4
    requires forall j :: 0 <= j < |InternetPairs()| ==> PairWalkable(InternetPairs()[j])
    ensures ApplyPairs(NewEntry(), InternetPairs()[..k]) == InternetEntryAfter(k)
  {
    if k > 0 {
      InternetPrefix(k - 1);
      InternetStep(k - 1);
      ApplyPairsPrefix(NewEntry(), InternetPairs(), k - 1);
    }
  }

  lemma InternetPairsApplied()
    ensures forall k :: 0 <= k < |InternetPairs()| ==> PairWalkable(InternetPairs()[k])
    ensures ApplyPairs(NewEntry(), InternetPairs()) == InternetEntryAfter(4)
  {
    forall k | 0 <= k < |InternetPairs()| ensures PairWalkable(InternetPairs()[k]) {
      InternetStep(k);
    }
    InternetPrefix(4);
    assert InternetPairs()[..4] == InternetPairs();
  }

  lemma InternetEntryValue()
    ensures InternetEntryAfter(4) ==
            Entry(map["title" := "Mail", "username" := "me@x.com", "password" := "secret"],
                  map["URL" := "mail.example.com"])
  {
  }

  /** Title, UserName and Password become properties, URL stays meta under its own casing. */
  lemma InternetExample()
    ensures Walkable(StartNode(InternetDocument()))
    ensures ChildrenOf(StartNode(InternetDocument())) ==
            [Group("Internet", [],
                   [Entry(map["title" := "Mail", "username" := "me@x.com", "password" := "secret"],
                          map["URL" := "mail.example.com"])])]
  {
    InternetPairsApplied();
    InternetEntryValue();
    EntryNodeConverts(InternetPairs());
    LeafGroupNodeConverts("Internet", EntryNode(InternetPairs()));
    DocumentNodeConverts(LeafGroupNode("Internet", EntryNode(InternetPairs())));
  }
}
