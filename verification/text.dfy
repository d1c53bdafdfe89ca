/**
 * Turning a loosely shaped parse value into one string (`extractString`),
 * together with the two string operations it and the importer rely on:
 * joining an array into text and lower-casing a key.
 */
module Text {

  import opened Wrappers
  import opened SourceTree

  /** The separator `extractString` joins array elements with. */
  const Separator := ", "

  /** What `toString()` gives for a plain object. */
  const ObjectText := "[object Object]"

  /** `Array.prototype.join`: the elements with `sep` between each neighbouring pair. */
  function Join(xs: seq<string>, sep: string): string
  {
    if xs == [] then ""
    else if |xs| == 1 then xs[0]
    else xs[0] + sep + Join(xs[1..], sep)
  }

  /** True when `x` holds the separator somewhere. */
  predicate HasSeparator(x: string) {
    exists i :: 0 <= i < |x| - 1 && x[i] == ',' && x[i + 1] == ' '
  }

  /** Cuts `s` at every occurrence of the separator, scanning from the left. */
  function Split(s: string): (r: seq<string>)
    ensures |r| > 0
    decreases |s|
  {
    if |s| < 2 then [s]
    else if s[..2] == Separator then [""] + Split(s[2..])
    else
      var rest := Split(s[1..]);
      [[s[0]] + rest[0]] + rest[1..]
  }

  /** Dropping the first character of a separator-free string leaves it separator-free. */
  lemma NoSeparatorInTail(x: string)
    requires |x| > 0 && !HasSeparator(x)
    ensures !HasSeparator(x[1..])
  {
    forall i | 0 <= i < |x[1..]| - 1 ensures !(x[1..][i] == ',' && x[1..][i + 1] == ' ') {
      assert !(x[i + 1] == ',' && x[i + 2] == ' ');
    }
  }

  lemma {:induction false} SplitWithoutSeparator(x: string)
    requires !HasSeparator(x)
    ensures Split(x) == [x]
    decreases |x|
  {
    if |x| >= 2 {
      assert x[..2] != Separator by { assert !(x[0] == ',' && x[1] == ' '); }
      NoSeparatorInTail(x);
      SplitWithoutSeparator(x[1..]);
      assert [x[0]] + x[1..] == x;
    }
  }

  lemma {:induction false} SplitAfterField(x: string, rest: string)
    requires !HasSeparator(x)
    ensures Split(x + Separator + rest) == [x] + Split(rest)
    decreases |x|
  {
    var s := x + Separator + rest;
    if x == [] {
      assert s[..2] == Separator;
      assert s[2..] == rest;
    } else {
      assert s[..2] != Separator by {
        assert s[1] == if |x| == 1 then ',' else x[1];
        assert |x| > 1 ==> !(x[0] == ',' && x[1] == ' ');
        assert !(s[0] == ',' && s[1] == ' ');
        assert Separator[0] == ',' && Separator[1] == ' ';
      }
      NoSeparatorInTail(x);
      assert s[1..] == x[1..] + Separator + rest;
      SplitAfterField(x[1..], rest);
      var tail := Split(s[1..]);
      assert tail[0] == x[1..] && tail[1..] == Split(rest);
      assert Split(s) == [[s[0]] + tail[0]] + tail[1..];
      assert [x[0]] + x[1..] == x;
    }
  }

  /** Joining with the separator loses nothing: the fields come back when none holds the separator. */
  lemma {:induction false} SplitJoin(xs: seq<string>)
    requires |xs| > 0
    requires forall i :: 0 <= i < |xs| ==> !HasSeparator(xs[i])
    ensures Split(Join(xs, Separator)) == xs
  {
    if |xs| == 1 {
      SplitWithoutSeparator(xs[0]);
    } else {
      SplitJoin(xs[1..]);
      SplitAfterField(xs[0], Join(xs[1..], Separator));
      assert [xs[0]] + xs[1..] == xs;
    }
  }

  /** How `join` renders one element: null and undefined as "", a nested array joined with ",". */
  function ElementText(n: Node): string
  {
    match n
    case Str(s) => s
    case List(items) => Join(seq(|items|, i requires 0 <= i < |items| => ElementText(items[i])), ",")
    case Obj(_, _) => ObjectText
    case Null => ""
    case Undefined => ""
  }

  /** The elements of an array as `join` renders them. */
  function Texts(items: seq<Node>): seq<string>
  {
    seq(|items|, i requires 0 <= i < |items| => ElementText(items[i]))
  }

  /** An array whose first element is an object with its own `_` text. */
  predicate HasBody(n: Node) {
    n.List? && |n.items| > 0 && n.items[0].Obj? && n.items[0].body.Some?
  }

  /** `extractString` throws only on an array whose first element is null (`null.hasOwnProperty`). */
  predicate Extractable(n: Node) {
    !(n.List? && |n.items| > 0 && n.items[0].Null?)
  }

  /** `extractString`: one string for any parse value. */
  function ExtractString(n: Node): string
    requires Extractable(n)
  {
    match n
    case Str(s) => s
    case List(items) =>
      if HasBody(n) then items[0].body.value
      else Join(Texts(items), Separator)
    case Obj(_, _) => ObjectText
    case Null => ""
    case Undefined => ""
  }

  /** A text element without attributes, `[s]`, reads as `s`. */
  lemma ExtractSingleText(s: string)
    ensures Extractable(List([Str(s)]))
    ensures ExtractString(List([Str(s)])) == s
  {
    assert Texts([Str(s)]) == [s];
  }

  /** A text element with attributes, `[{_: b, $: ...}, ...]`, reads as `b` whatever follows it. */
  lemma ExtractBodyWins(attrs: map<string, Node>, b: string, rest: seq<Node>)
    ensures Extractable(List([Obj(attrs, Some(b))] + rest))
    ensures ExtractString(List([Obj(attrs, Some(b))] + rest)) == b
  {
    assert HasBody(List([Obj(attrs, Some(b))] + rest));
  }

  /** An absent text, `[]`, and an empty one, `[""]`, both read as the empty string. */
  lemma ExtractEmptyTexts()
    ensures ExtractString(List([])) == ""
    ensures ExtractString(List([Str("")])) == ""
  {
    ExtractSingleText("");
  }

  /**
   * An element with attributes but no text, `[{$: ...}]` (an empty protected
   * value, say), reads as the object's `toString` text, not as "".
   */
  lemma ExtractAttributesOnly(attrs: map<string, Node>)
    ensures Extractable(List([Obj(attrs, None)]))
    ensures ExtractString(List([Obj(attrs, None)])) == ObjectText
  {
    assert Texts([Obj(attrs, None)]) == [ObjectText];
  }

  /** An array of plain strings (the usual shape of a text element) reads back as its strings. */
  lemma ExtractStrings(ss: seq<string>)
    requires |ss| > 0
    requires forall i :: 0 <= i < |ss| ==> !HasSeparator(ss[i])
    ensures var n := List(seq(|ss|, i requires 0 <= i < |ss| => Str(ss[i])));
            Extractable(n) && Split(ExtractString(n)) == ss
  {
    var n := List(seq(|ss|, i requires 0 <= i < |ss| => Str(ss[i])));
    assert Texts(n.items) == ss;
    SplitJoin(ss);
  }

  /** `toLowerCase` on one character (ASCII letters). */
  function LowerChar(c: char): char {
    if 'A' <= c <= 'Z' then (c as int - 'A' as int + 'a' as int) as char else c
  }

  /** `toLowerCase` on a string. */
  function LowerCase(s: string): string {
    if s == [] then [] else [LowerChar(s[0])] + LowerCase(s[1..])
  }

  /** `toLowerCase` keeps the length and lower-cases every character in place. */
  lemma {:induction false} LowerCaseInPlace(s: string)
    ensures |LowerCase(s)| == |s|
    ensures forall i :: 0 <= i < |s| ==> LowerCase(s)[i] == LowerChar(s[i])
  {
    if s != [] {
      LowerCaseInPlace(s[1..]);
    }
  }

  /** `a` and `b` differ at most in the case of ASCII letters. */
  predicate SameUpToCase(a: string, b: string) {
    |a| == |b| && forall i :: 0 <= i < |a| ==> LowerChar(a[i]) == LowerChar(b[i])
  }

  /** Keys that differ only in case lower-case to the same key. */
  lemma LowerCaseOfVariants(a: string, b: string)
    requires SameUpToCase(a, b)
    ensures LowerCase(a) == LowerCase(b)
  {
    LowerCaseInPlace(a);
    LowerCaseInPlace(b);
  }

  /** Lower-casing a lower-cased key changes nothing. */
  lemma {:induction false} LowerCaseIdempotent(s: string)
    ensures LowerCase(LowerCase(s)) == LowerCase(s)
  {
    LowerCaseInPlace(s);
    LowerCaseInPlace(LowerCase(s));
  }
}
