/** The list branch of `render_item`: a list field of a document is shown as
    its rendered elements between brackets, separated by `, `. */
module Render {

  /** A field value as far as the list branch sees it: a list of values, or
      any other value, which renders as its text. */
  datatype Item = Scalar(text: string) | Items(elems: seq<Item>)

  const Separator := ", "

  /** The parts separated by `sep`, with nothing before the first or after the last. */
  function Joined(parts: seq<string>, sep: string): string {
    if parts == [] then ""
    else if |parts| == 1 then parts[0]
    else parts[0] + sep + Joined(parts[1..], sep)
  }

  /** Every part followed by `sep`: what the loop has built before trimming. */
  function Terminated(parts: seq<string>, sep: string): (r: string)
    ensures |r| >= |parts| * |sep|
  {
    if parts == [] then "" else parts[0] + sep + Terminated(parts[1..], sep)
  }

  /** A non-empty run of terminated parts is the joined parts with one
      trailing separator: trimming it gives the joined parts back. */
  lemma {:induction false} TerminatedIsJoined(parts: seq<string>, sep: string)
    requires parts != []
    ensures Terminated(parts, sep) == Joined(parts, sep) + sep
    decreases |parts|
  {
    if |parts| > 1 {
      TerminatedIsJoined(parts[1..], sep);
    } else {
      assert parts[1..] == [];
    }
  }

  lemma {:induction false} TerminatedSnoc(parts: seq<string>, p: string, sep: string)
    ensures Terminated(parts + [p], sep) == Terminated(parts, sep) + p + sep
    decreases |parts|
  {
    if parts == [] {
      assert [p][1..] == [];
    } else {
      assert (parts + [p])[1..] == parts[1..] + [p];
      TerminatedSnoc(parts[1..], p, sep);
    }
  }

  /** The text the list branch produces for a list of already rendered parts. */
  function Bracketed(parts: seq<string>): string {
    "[" + Joined(parts, Separator) + "]"
  }

  /** `render_item` on a value: a list shows its rendered elements bracketed. */
  function Rendered(item: Item): string
    decreases item, 1
  {
    match item
    case Scalar(text) => text
    case Items(elems) => Bracketed(RenderedAll(elems))
  }

  function RenderedAll(elems: seq<Item>): (parts: seq<string>)
    ensures |parts| == |elems|
    ensures forall i :: 0 <= i < |elems| ==> parts[i] == Rendered(elems[i])
    decreases elems, 0
  {
    if elems == [] then [] else [Rendered(elems[0])] + RenderedAll(elems[1..])
  }

  /** The list branch of `render_item`: open a bracket, append each rendered
      element and a separator, drop the last separator if there were
      elements, close the bracket. */
  method RenderItem(item: Item) returns (text: string)
    ensures text == Rendered(item)
    decreases item
  {
    match item {
      case Scalar(t) =>
        text := t;
      case Items(elems) =>
        text := "[";
        ghost var parts: seq<string> := [];
        for n := 0 to |elems|
          invariant parts == RenderedAll(elems)[..n]
          invariant text == "[" + Terminated(parts, Separator)
        {
          var sub := RenderItem(elems[n]);
          TerminatedSnoc(parts, sub, Separator);
          assert RenderedAll(elems)[..n + 1] == parts + [sub];
          text := text + sub + Separator;
          parts := parts + [sub];
        }
        assert parts == RenderedAll(elems);
        if |elems| > 0 {
          TerminatedIsJoined(parts, Separator);
          text := text[..|text| - 2];
        }
        text := text + "]";
    }
  }

  /** An empty list renders as `[]`. */
  lemma EmptyList()
    ensures Rendered(Items([])) == "[]"
  {
  }

  /** A one-element list has no separator: just its element in brackets. */
  lemma SingletonList(x: Item)
    ensures Rendered(Items([x])) == "[" + Rendered(x) + "]"
  {
    assert RenderedAll([x]) == [Rendered(x)];
  }

  /** Adding an element to a non-empty list inserts exactly one separator
      before the new element's text. */
  lemma AppendElement(xs: seq<Item>, x: Item)
    requires xs != []
    ensures Rendered(Items(xs + [x])) ==
      "[" + Joined(RenderedAll(xs), Separator) + Separator + Rendered(x) + "]"
  {
    var parts := RenderedAll(xs);
    assert RenderedAll(xs + [x]) == parts + [Rendered(x)];
    JoinedSnoc(parts, Rendered(x), Separator);
  }

  lemma {:induction false} JoinedSnoc(parts: seq<string>, p: string, sep: string)
    requires parts != []
    ensures Joined(parts + [p], sep) == Joined(parts, sep) + sep + p
    decreases |parts|
  {
    if |parts| == 1 {
      assert (parts + [p])[1..] == [p];
    } else {
      assert (parts + [p])[1..] == parts[1..] + [p];
      JoinedSnoc(parts[1..], p, sep);
    }
  }

  /** A rendered list starts with `[`, ends with `]`, and is two characters
      longer than its joined elements. */
  lemma Brackets(elems: seq<Item>)
    ensures var r := Rendered(Items(elems));
      |r| >= 2 && r[0] == '[' && r[|r| - 1] == ']' &&
      r[1..|r| - 1] == Joined(RenderedAll(elems), Separator)
  {
  }
}
