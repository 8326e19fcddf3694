/**
 * Domain names as sequences of labels: writing labels each followed by a dot,
 * and splitting text back at its dots.
 */
module Labels {

  /** The labels, each followed by '.', in order: Dotted(["a", "b"]) == "a.b.". */
  function Dotted(labels: seq<string>): string
  {
    if labels == [] then [] else labels[0] + "." + Dotted(labels[1..])
  }

  lemma {:induction false} DottedAppend(labels: seq<string>, last: string)
    ensures Dotted(labels + [last]) == Dotted(labels) + last + "."
  {
    if labels != [] {
      assert (labels + [last])[1..] == labels[1..] + [last];
      DottedAppend(labels[1..], last);
    }
  }

  /** Position of the first '.' in `s`, or |s| when there is none. */
  function IndexOfDot(s: string): (i: nat)
    ensures i <= |s|
    ensures i < |s| ==> s[i] == '.'
    ensures forall j :: 0 <= j < i ==> s[j] != '.'
  {
    if s == [] || s[0] == '.' then 0 else 1 + IndexOfDot(s[1..])
  }

  /** `s` cut at every '.', like Go's strings.Split(s, "."): a trailing dot yields a last, empty label. */
  function SplitDots(s: string): (labels: seq<string>)
    ensures |labels| >= 1
    decreases |s|
  {
    var i := IndexOfDot(s);
    if i == |s| then [s] else [s[..i]] + SplitDots(s[i + 1..])
  }

  predicate NoDots(labels: seq<string>)
  {
    forall k :: 0 <= k < |labels| ==> '.' !in labels[k]
  }

  /** The first dot of `head + "." + rest` is the one after `head` when `head` has none. */
  lemma {:induction false} IndexOfDotAfter(head: string, rest: string)
    requires '.' !in head
    ensures IndexOfDot(head + "." + rest) == |head|
  {
    if head != [] {
      assert (head + "." + rest)[1..] == head[1..] + "." + rest;
      IndexOfDotAfter(head[1..], rest);
    }
  }

  /** Labels written with Dotted are recovered by SplitDots, whatever text follows them. */
  lemma {:induction false} SplitDotted(labels: seq<string>, tail: string)
    requires NoDots(labels)
    ensures SplitDots(Dotted(labels) + tail) == labels + SplitDots(tail)
  {
    if labels == [] {
      assert Dotted(labels) + tail == tail;
    } else {
      var head, rest := labels[0], Dotted(labels[1..]) + tail;
      assert Dotted(labels) + tail == head + "." + rest;
      SplitAfter(head, rest);
      SplitDotted(labels[1..], tail);
      ConsAppend(labels, SplitDots(tail));
    }
  }

  /** Taking the head off `xs` and putting it back in front of `xs[1..] + ys`. */
  lemma ConsAppend<T>(xs: seq<T>, ys: seq<T>)
    requires xs != []
    ensures [xs[0]] + (xs[1..] + ys) == xs + ys
  {
    assert xs == [xs[0]] + xs[1..];
  }

  lemma SplitAfter(head: string, rest: string)
    requires '.' !in head
    ensures SplitDots(head + "." + rest) == [head] + SplitDots(rest)
  {
    var s := head + "." + rest;
    IndexOfDotAfter(head, rest);
    assert s[..|head|] == head && s[|head| + 1..] == rest;
  }
}
