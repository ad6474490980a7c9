/**
 * The node tree a raw fragment is made of, and its reference meaning: the
 * pre-order sequence of leaves the compiler visits.
 */
module Nodes {
  import opened Values

  /** One node of a fragment tree. */
  datatype Node =
      /** SQL text emitted verbatim. */
    | Text(sql: string)
      /** A value bound through a placeholder. */
    | Parameter(value: Value)
      /** A value written inline into the SQL text. */
    | Literal(value: Value)
      /** A column or other name, one quoted part per segment. */
    | Identifier(parts: seq<string>)
      /** A table path, rendered exactly like an identifier. */
    | TableRef(parts: seq<string>)
      /** Children emitted one after another with nothing between them. */
    | Sequence(children: seq<Node>)
      /** Items emitted with `separator` between consecutive items. */
    | Joined(items: seq<Node>, separator: Node)

  /** True for the node kinds that emit text themselves rather than through children. */
  predicate IsLeaf(n: Node)
  {
    !n.Sequence? && !n.Joined?
  }

  /** A node that emits its own text. */
  type Leaf = n: Node | IsLeaf(n) witness Text("")

  /** A termination measure: the number of nodes, counting a join's separator once. */
  function Size(n: Node): (k: nat)
    ensures k >= 1
  {
    match n
    case Sequence(children) => 1 + SizeAll(children)
    case Joined(items, separator) => 1 + SizeAll(items) + Size(separator)
    case _ => 1
  }

  function SizeAll(ns: seq<Node>): nat
  {
    if |ns| == 0 then 0 else Size(ns[0]) + SizeAll(ns[1..])
  }

  /**
   * The leaves of `n` in the order a depth-first, left-to-right walk reaches
   * them; a join contributes its separator's leaves between every two items.
   */
  function Leaves(n: Node): seq<Leaf>
    decreases Size(n), 0
  {
    match n
    case Sequence(children) => LeavesAll(children)
    case Joined(items, separator) =>
      if |items| == 0 then []
      else
        assert SizeAll(items) == Size(items[0]) + SizeAll(items[1..]);
        Leaves(items[0]) + LeavesSeparated(items[1..], separator)
    case _ => [n]
  }

  /** The leaves of `ns` one node after another. */
  function LeavesAll(ns: seq<Node>): seq<Leaf>
    decreases SizeAll(ns), 1
  {
    if |ns| == 0 then [] else Leaves(ns[0]) + LeavesAll(ns[1..])
  }

  /** The leaves of `rest`, each item preceded by the separator's leaves. */
  function LeavesSeparated(rest: seq<Node>, separator: Node): seq<Leaf>
    decreases SizeAll(rest) + Size(separator), 1
  {
    if |rest| == 0 then []
    else Leaves(separator) + Leaves(rest[0]) + LeavesSeparated(rest[1..], separator)
  }

  /** The values of the Parameter leaves among `ls`, in order. */
  function ParameterValues(ls: seq<Node>): (vs: seq<Value>)
    ensures |vs| <= |ls|
  {
    if |ls| == 0 then []
    else (if ls[0].Parameter? then [ls[0].value] else []) + ParameterValues(ls[1..])
  }

  /** The values a compiled `n` must bind, in the order their placeholders appear. */
  function Params(n: Node): seq<Value>
  {
    ParameterValues(Leaves(n))
  }

  /** True when no visited Identifier or TableRef leaf has zero parts. */
  predicate WellFormedLeaves(ls: seq<Node>)
  {
    forall i :: 0 <= i < |ls| ==> (ls[i].Identifier? || ls[i].TableRef?) ==> |ls[i].parts| > 0
  }

  /** True when `n` can be compiled: every name it visits has at least one part. */
  predicate WellFormed(n: Node)
  {
    WellFormedLeaves(Leaves(n))
  }

  lemma {:induction false} ParameterValuesAppend(a: seq<Node>, b: seq<Node>)
    ensures ParameterValues(a + b) == ParameterValues(a) + ParameterValues(b)
  {
    if |a| > 0 {
      assert (a + b)[0] == a[0];
      assert (a + b)[1..] == a[1..] + b;
      ParameterValuesAppend(a[1..], b);
    } else {
      assert a + b == b;
    }
  }

  lemma {:induction false} LeavesAllAppend(a: seq<Node>, b: seq<Node>)
    ensures LeavesAll(a + b) == LeavesAll(a) + LeavesAll(b)
  {
    if |a| == 0 {
      assert a + b == b;
    } else {
      assert (a + b)[0] == a[0];
      assert (a + b)[1..] == a[1..] + b;
      LeavesAllAppend(a[1..], b);
    }
  }

  lemma {:induction false} WellFormedLeavesAppend(a: seq<Node>, b: seq<Node>)
    ensures WellFormedLeaves(a + b) <==> WellFormedLeaves(a) && WellFormedLeaves(b)
  {
    if WellFormedLeaves(a) && WellFormedLeaves(b) {
      forall i | 0 <= i < |a + b|
        ensures ((a + b)[i].Identifier? || (a + b)[i].TableRef?) ==> |(a + b)[i].parts| > 0
      {
        if i >= |a| {
          assert (a + b)[i] == b[i - |a|];
        }
      }
    }
    if WellFormedLeaves(a + b) {
      forall i | 0 <= i < |a|
        ensures (a[i].Identifier? || a[i].TableRef?) ==> |a[i].parts| > 0
      {
        assert (a + b)[i] == a[i];
      }
      forall i | 0 <= i < |b|
        ensures (b[i].Identifier? || b[i].TableRef?) ==> |b[i].parts| > 0
      {
        assert (a + b)[|a| + i] == b[i];
      }
    }
  }

  /** A sequence visits its first child's leaves, then the leaves of the sequence of the rest. */
  lemma LeavesCons(cs: seq<Node>, first: Node, rest: seq<Node>)
    requires cs == [first] + rest
    ensures Leaves(Sequence(cs)) == Leaves(first) + Leaves(Sequence(rest))
  {
    assert cs[0] == first && cs[1..] == rest;
  }

  /** A sequence of two children visits the first child's leaves, then the second's. */
  lemma {:induction false} LeavesPair(x: Node, y: Node)
    ensures Leaves(Sequence([x, y])) == Leaves(x) + Leaves(y)
  {
    LeavesCons([x, y], x, [y]);
    LeavesCons([y], y, []);
  }

  /**
   * A join visits the same leaves as the plain sequence that alternates its
   * items with copies of its separator.
   */
  lemma {:induction false} JoinedIsInterleaved(items: seq<Node>, separator: Node)
    ensures Leaves(Joined(items, separator)) == LeavesAll(Interleave(items, separator))
  {
    if |items| > 0 {
      SeparatedIsInterleaved(items, separator);
    }
  }

  lemma {:induction false} SeparatedIsInterleaved(items: seq<Node>, separator: Node)
    requires |items| > 0
    ensures Leaves(items[0]) + LeavesSeparated(items[1..], separator)
         == LeavesAll(Interleave(items, separator))
  {
    var il := Interleave(items, separator);
    if |items| == 1 {
      assert il == [items[0]];
      assert il[1..] == [];
    } else {
      var tail := Interleave(items[1..], separator);
      assert il == [items[0], separator] + tail;
      assert il[1..] == [separator] + tail;
      assert il[1..][1..] == tail;
      SeparatedIsInterleaved(items[1..], separator);
      assert items[1..][1..] == items[2..];
    }
  }

  /**
   * `items` with `separator` placed between every two consecutive items:
   * items at the even positions, the separator at the odd ones, so a list of
   * `k > 0` items gets `k - 1` separators and none after its last item.
   */
  function Interleave(items: seq<Node>, separator: Node): (r: seq<Node>)
    ensures |items| == 0 ==> |r| == 0
    ensures |items| > 0 ==> |r| == 2 * |items| - 1
    ensures forall j :: 0 <= j < |r| && j % 2 == 0 ==> r[j] == items[j / 2]
    ensures forall j :: 0 <= j < |r| && j % 2 == 1 ==> r[j] == separator
  {
    if |items| <= 1 then items
    else
      var tail := Interleave(items[1..], separator);
      var r := [items[0], separator] + tail;
      assert forall j :: 2 <= j < |r| ==> r[j] == tail[j - 2];
      r
  }
}
