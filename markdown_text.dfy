/**
 * The plain text of a rendered markdown node tree
 * (src/components/blog/markdown/utils.ts): what the heading renderers feed
 * to the heading-id function. A node is a React child value: a string, a
 * number, an array of children, an element whose props carry children, or
 * anything else (null, undefined, a boolean, an object without props).
 */
module MarkdownText {
  import opened Wrappers
  import opened Js

  /** A React child value, as far as getTextContent distinguishes them. */
  datatype Node =
    | Str(s: string)
    | Num(n: int)
    | Arr(items: seq<Node>)
    | Element(children: Node)   // an object with `props`; absent children are `Undefined`
    | PlainObject               // an object without `props`
    | Bool(b: bool)
    | Null
    | Undefined

  /** `parts.join("")`: the parts one after the other. */
  function Join(parts: seq<string>): (r: string)
    ensures |r| == 0 <==> forall i :: 0 <= i < |parts| ==> parts[i] == ""
  {
    if parts == [] then "" else parts[0] + Join(parts[1..])
  }

  /**
   * getTextContent: the texts of the string and number leaves of the tree,
   * one after the other in depth-first, left-to-right order.
   */
  function TextOf(n: Node): (r: string)
    ensures r == Join(Leaves(n))
    decreases n
  {
    match n
    case Str(s) =>
      assert Join([s]) == s + Join([]);
      s
    case Num(k) =>
      assert Join([IntToString(k)]) == IntToString(k) + Join([]);
      IntToString(k)
    case Arr(items) =>
      var ts := seq(|items|, i requires 0 <= i < |items| => TextOf(items[i]));
      var xss := seq(|items|, i requires 0 <= i < |items| => Leaves(items[i]));
      JoinFlatten(xss);
      assert seq(|xss|, i requires 0 <= i < |xss| => Join(xss[i])) == ts;
      Join(ts)
    case Element(c) => TextOf(c)
    case _ => ""
  }

  // ---------------------------------------------------------------------------
  // A reference definition: the leaves of the tree

  /** `xss.flat()`. */
  function Flatten(xss: seq<seq<string>>): seq<string> {
    if xss == [] then [] else xss[0] + Flatten(xss[1..])
  }

  /** The texts of the string and number leaves, depth first and left to right; elements are looked through. */
  function Leaves(n: Node): seq<string>
    decreases n
  {
    match n
    case Str(s) => [s]
    case Num(k) => [IntToString(k)]
    case Arr(items) => Flatten(seq(|items|, i requires 0 <= i < |items| => Leaves(items[i])))
    case Element(c) => Leaves(c)
    case _ => []
  }

  // ---------------------------------------------------------------------------
  // Properties

  /** Joining two lists of parts is joining each and concatenating. */
  lemma {:induction false} JoinAppend(a: seq<string>, b: seq<string>)
    ensures Join(a + b) == Join(a) + Join(b)
  {
    if a == [] {
      assert a + b == b;
    } else {
      assert (a + b)[1..] == a[1..] + b;
      JoinAppend(a[1..], b);
      assert Join(a + b) == a[0] + (Join(a[1..]) + Join(b));
    }
  }

  /** Joining a flattened list is joining the joins of its pieces. */
  lemma {:induction false} JoinFlatten(xss: seq<seq<string>>)
    ensures Join(Flatten(xss)) == Join(seq(|xss|, i requires 0 <= i < |xss| => Join(xss[i])))
  {
    if xss != [] {
      JoinAppend(xss[0], Flatten(xss[1..]));
      JoinFlatten(xss[1..]);
      var js := seq(|xss|, i requires 0 <= i < |xss| => Join(xss[i]));
      assert js[1..] == seq(|xss[1..]|, i requires 0 <= i < |xss[1..]| => Join(xss[1..][i]));
    }
  }

  /** An array's text is the in-order concatenation of its parts: the text of `a` followed by the text of `b`. */
  lemma ArrayConcat(a: seq<Node>, b: seq<Node>)
    ensures TextOf(Arr(a + b)) == TextOf(Arr(a)) + TextOf(Arr(b))
  {
    var ta := seq(|a|, i requires 0 <= i < |a| => TextOf(a[i]));
    var tb := seq(|b|, i requires 0 <= i < |b| => TextOf(b[i]));
    var ab := a + b;
    assert seq(|ab|, i requires 0 <= i < |ab| => TextOf(ab[i])) == ta + tb;
    JoinAppend(ta, tb);
  }

  /** An array of one child has that child's text, and an empty array has none. */
  lemma SingletonArray(n: Node)
    ensures TextOf(Arr([n])) == TextOf(n)
    ensures TextOf(Arr([])) == ""
  {
    assert seq(1, i requires 0 <= i < 1 => TextOf([n][i])) == [TextOf(n)];
    assert Join([TextOf(n)]) == TextOf(n) + Join([]);
  }

  /** Nesting arrays changes nothing: arrays are flattened in order. */
  lemma NestedArrays(a: seq<Node>, b: seq<Node>)
    ensures TextOf(Arr([Arr(a), Arr(b)])) == TextOf(Arr(a + b))
  {
    ArrayConcat([Arr(a)], [Arr(b)]);
    assert [Arr(a)] + [Arr(b)] == [Arr(a), Arr(b)];
    SingletonArray(Arr(a));
    SingletonArray(Arr(b));
    ArrayConcat(a, b);
  }

  /** A number's text is its decimal notation: parseInt reads the number back. */
  lemma NumberText(k: int)
    ensures ParseInt(TextOf(Num(k))) == Some(k)
  {
    IntToStringRoundTrip(k);
  }

  /** The text of a string node is the string; an element has the text of its children. */
  lemma StringAndElementText(s: string, c: Node)
    ensures TextOf(Str(s)) == s
    ensures TextOf(Element(c)) == TextOf(c)
    ensures TextOf(Element(Undefined)) == ""
  {
  }

  /** null, undefined, booleans and objects without props have no text. */
  lemma OtherValuesHaveNoText(n: Node)
    requires n.Null? || n.Undefined? || n.Bool? || n.PlainObject?
    ensures TextOf(n) == ""
  {
  }
}
