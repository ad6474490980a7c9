/**
 * Text segments with nodes spliced between them, as a template's children
 * are: what the result visits, compiles to, binds and needs, first for runs
 * of leaves and then for nodes.
 */
module Splicing {
  import opened Strings
  import opened Values
  import opened Nodes
  import opened Dialects
  import opened Compiler
  import opened Composition
  import opened Builder

  /** Text leaves for the segments with the leaf runs `parts` between them. */
  function Spliced(segments: seq<string>, parts: seq<seq<Leaf>>): seq<Leaf>
    requires |segments| == |parts| + 1
  {
    var t: Leaf := Text(segments[0]);
    if |parts| == 0 then [t] else [t] + (parts[0] + Spliced(segments[1..], parts[1..]))
  }

  /** The rendered runs, each numbered after the parameters of the runs before it. */
  function PartTexts(parts: seq<seq<Leaf>>, q: char, style: PlaceholderStyle, k: nat): (ts: seq<string>)
    ensures |ts| == |parts|
  {
    if |parts| == 0 then []
    else [Render(EmitLeaves(parts[0], q, k).pieces, style)]
         + PartTexts(parts[1..], q, style, k + |ParameterValues(parts[0])|)
  }

  /** The parameters of the runs, one run after another. */
  function PartParams(parts: seq<seq<Leaf>>): seq<Value>
  {
    if |parts| == 0 then [] else ParameterValues(parts[0]) + PartParams(parts[1..])
  }

  /** A text leaf renders as its text, after any number of parameters, and binds nothing. */
  lemma {:induction false} TextLeafText(s: string, q: char, style: PlaceholderStyle, k: nat)
    ensures Render(EmitLeaves([Text(s)], q, k).pieces, style) == s
    ensures ParameterValues([Text(s)]) == []
  {
    var ls: seq<Leaf> := [Text(s)];
    assert ls[1..] == [];
    assert EmitLeaves(ls, q, k).pieces == [Chunk(s)];
    assert [Chunk(s)][1..] == [];
  }

  /** A text leaf in front of a run adds its text in front and shifts no placeholder number. */
  lemma {:induction false} TextThen(s: string, rest: seq<Leaf>, q: char, style: PlaceholderStyle, k: nat)
    ensures Render(EmitLeaves([Text(s)] + rest, q, k).pieces, style) == s + Render(EmitLeaves(rest, q, k).pieces, style)
  {
    var ls: seq<Leaf> := [Text(s)] + rest;
    var e := EmitLeaves(rest, q, k);
    assert ls[0] == Text(s) && ls[1..] == rest;
    assert EmitLeaves(ls, q, k).pieces == [Chunk(s)] + e.pieces;
    RenderChunkFirst(s, e.pieces, style);
  }

  lemma {:induction false} RenderChunkFirst(s: string, ps: seq<Piece>, style: PlaceholderStyle)
    ensures Render([Chunk(s)] + ps, style) == s + Render(ps, style)
  {
    var all := [Chunk(s)] + ps;
    assert all[0] == Chunk(s) && all[1..] == ps;
  }

  /** The first segment, the first run, then the rest numbered after the first run. */
  lemma {:induction false} SplicedStep(segments: seq<string>, parts: seq<seq<Leaf>>, q: char, style: PlaceholderStyle, k: nat)
    requires |segments| == |parts| + 1 && |parts| > 0
    ensures Render(EmitLeaves(Spliced(segments, parts), q, k).pieces, style)
         == segments[0] + (Render(EmitLeaves(parts[0], q, k).pieces, style)
                           + Render(EmitLeaves(Spliced(segments[1..], parts[1..]), q, k + |ParameterValues(parts[0])|).pieces, style))
  {
    var p := parts[0];
    var r := Spliced(segments[1..], parts[1..]);
    SplicedCons(segments, parts);
    TextThen(segments[0], p + r, q, style, k);
    RenderLeavesAppend(p, r, q, style, k);
  }

  lemma {:induction false} SplicedCons(segments: seq<string>, parts: seq<seq<Leaf>>)
    requires |segments| == |parts| + 1 && |parts| > 0
    ensures Spliced(segments, parts) == [Text(segments[0])] + (parts[0] + Spliced(segments[1..], parts[1..]))
  {
  }

  /** The first run's text heads the runs' texts. */
  lemma {:induction false} PartTextsHead(parts: seq<seq<Leaf>>, q: char, style: PlaceholderStyle, k: nat)
    requires |parts| > 0
    ensures PartTexts(parts, q, style, k)[0] == Render(EmitLeaves(parts[0], q, k).pieces, style)
  {
  }

  /** After the first run's text come the rest's, numbered after the first run's parameters. */
  lemma {:induction false} PartTextsTail(parts: seq<seq<Leaf>>, rest: seq<seq<Leaf>>, q: char, style: PlaceholderStyle, k: nat, m: nat)
    requires |parts| > 0 && rest == parts[1..] && m == k + |ParameterValues(parts[0])|
    ensures PartTexts(parts, q, style, k)[1..] == PartTexts(rest, q, style, m)
  {
  }

  /** A text that is the first gap, the first token and the rest assembled is the whole assembled. */
  lemma {:induction false} AssembleStep(gaps: seq<string>, tokens: seq<string>, x: string, y: string)
    requires |gaps| == |tokens| + 1 && |tokens| > 0
    requires y == Assemble(gaps[1..], tokens[1..])
    requires x == gaps[0] + (tokens[0] + y)
    ensures x == Assemble(gaps, tokens)
  {
    assert gaps[0] + (tokens[0] + y) == gaps[0] + tokens[0] + y;
  }

  /** Spliced runs render as the segments with the runs' texts between them. */
  lemma {:induction false} SplicedText(segments: seq<string>, parts: seq<seq<Leaf>>, q: char, style: PlaceholderStyle, k: nat)
    requires |segments| == |parts| + 1
    ensures Render(EmitLeaves(Spliced(segments, parts), q, k).pieces, style) == Assemble(segments, PartTexts(parts, q, style, k))
  {
    if |parts| == 0 {
      TextLeafText(segments[0], q, style, k);
    } else {
      var m := k + |ParameterValues(parts[0])|;
      var ts := PartTexts(parts, q, style, k);
      var rest := Render(EmitLeaves(Spliced(segments[1..], parts[1..]), q, m).pieces, style);
      SplicedText(segments[1..], parts[1..], q, style, m);
      SplicedStep(segments, parts, q, style, k);
      PartTextsHead(parts, q, style, k);
      PartTextsTail(parts, parts[1..], q, style, k, m);
      AssembleStep(segments, ts, Render(EmitLeaves(Spliced(segments, parts), q, k).pieces, style), rest);
    }
  }

  /** Spliced runs bind the runs' parameters, one run after another. */
  lemma {:induction false} SplicedParams(segments: seq<string>, parts: seq<seq<Leaf>>)
    requires |segments| == |parts| + 1
    ensures ParameterValues(Spliced(segments, parts)) == PartParams(parts)
  {
    var t: seq<Leaf> := [Text(segments[0])];
    assert ParameterValues(t) == [] by {
      assert t[1..] == [];
    }
    if |parts| > 0 {
      var p := parts[0];
      var r := Spliced(segments[1..], parts[1..]);
      SplicedParams(segments[1..], parts[1..]);
      SplicedCons(segments, parts);
      ParameterValuesAppend(t, p + r);
      ParameterValuesAppend(p, r);
    }
  }

  /** True when every run is well-formed. */
  predicate AllWellFormedLeaves(parts: seq<seq<Leaf>>)
  {
    forall i :: 0 <= i < |parts| ==> WellFormedLeaves(parts[i])
  }

  lemma {:induction false} AllWellFormedLeavesCons(parts: seq<seq<Leaf>>)
    requires |parts| > 0
    ensures AllWellFormedLeaves(parts) <==> WellFormedLeaves(parts[0]) && AllWellFormedLeaves(parts[1..])
  {
    if WellFormedLeaves(parts[0]) && AllWellFormedLeaves(parts[1..]) {
      forall i | 0 <= i < |parts|
        ensures WellFormedLeaves(parts[i])
      {
        if i > 0 {
          assert parts[i] == parts[1..][i - 1];
        }
      }
    }
  }

  /** Spliced runs are well-formed exactly when every run is: text leaves always are. */
  lemma {:induction false} SplicedWellFormed(segments: seq<string>, parts: seq<seq<Leaf>>)
    requires |segments| == |parts| + 1
    ensures WellFormedLeaves(Spliced(segments, parts)) <==> AllWellFormedLeaves(parts)
  {
    var t: seq<Leaf> := [Text(segments[0])];
    assert WellFormedLeaves(t);
    if |parts| > 0 {
      var p := parts[0];
      var r := Spliced(segments[1..], parts[1..]);
      SplicedWellFormed(segments[1..], parts[1..]);
      SplicedCons(segments, parts);
      WellFormedLeavesAppend(t, p + r);
      WellFormedLeavesAppend(p, r);
      AllWellFormedLeavesCons(parts);
    }
  }

  /** The leaves of each node, in order. */
  function LeavesEach(ns: seq<Node>): (parts: seq<seq<Leaf>>)
    ensures |parts| == |ns|
    ensures forall i :: 0 <= i < |ns| ==> parts[i] == Leaves(ns[i])
  {
    seq(|ns|, i requires 0 <= i < |ns| => Leaves(ns[i]))
  }

  /**
   * The texts of `ns` side by side, each numbered after the parameters of
   * those before it: the rendered runs of their leaves (`TextsCons` states
   * it node by node).
   */
  function Texts(ns: seq<Node>, d: Dialect, k: nat): (ts: seq<string>)
    ensures |ts| == |ns|
  {
    PartTexts(LeavesEach(ns), d.quote, d.placeholders, k)
  }

  /** The parameters of `ns`, one node after another. */
  function ParamsAll(ns: seq<Node>): seq<Value>
  {
    if |ns| == 0 then [] else Params(ns[0]) + ParamsAll(ns[1..])
  }

  lemma {:induction false} LeavesEachCons(ns: seq<Node>)
    requires |ns| > 0
    ensures LeavesEach(ns)[0] == Leaves(ns[0])
    ensures LeavesEach(ns)[1..] == LeavesEach(ns[1..])
  {
  }

  /** Text segments with nodes between them visit the segments' text leaves with the nodes' leaves between them. */
  lemma {:induction false} InterposeLeaves(segments: seq<string>, ns: seq<Node>)
    requires |segments| == |ns| + 1
    ensures Leaves(Sequence(Interpose(segments, ns))) == Spliced(segments, LeavesEach(ns))
  {
    var t := Text(segments[0]);
    if |ns| == 0 {
      LeavesCons([t], t, []);
    } else {
      var tail := Interpose(segments[1..], ns[1..]);
      InterposeLeaves(segments[1..], ns[1..]);
      InterposeLeavesStep(segments, ns, t, tail);
      LeavesEachCons(ns);
    }
  }

  lemma {:induction false} InterposeLeavesStep(segments: seq<string>, ns: seq<Node>, t: Node, tail: seq<Node>)
    requires |segments| == |ns| + 1 && |ns| > 0
    requires t == Text(segments[0]) && tail == Interpose(segments[1..], ns[1..])
    ensures Leaves(Sequence(Interpose(segments, ns))) == [t] + (Leaves(ns[0]) + Leaves(Sequence(tail)))
  {
    assert Interpose(segments, ns) == [t] + ([ns[0]] + tail);
    LeavesCons([t] + ([ns[0]] + tail), t, [ns[0]] + tail);
    LeavesCons([ns[0]] + tail, ns[0], tail);
  }

  /** The texts of nodes: the first node's own text, then the rest's numbered after its parameters. */
  lemma {:induction false} TextsCons(ns: seq<Node>, d: Dialect, k: nat)
    requires |ns| > 0
    ensures Texts(ns, d, k)[0] == TextAfter(ns[0], d, k)
    ensures Texts(ns, d, k)[1..] == Texts(ns[1..], d, k + |Params(ns[0])|)
  {
    TextsHead(ns, d, k);
    TextsTail(ns, d, k);
  }

  lemma {:induction false} TextsHead(ns: seq<Node>, d: Dialect, k: nat)
    requires |ns| > 0
    ensures Texts(ns, d, k)[0] == TextAfter(ns[0], d, k)
  {
    LeavesEachCons(ns);
    PartTextsHead(LeavesEach(ns), d.quote, d.placeholders, k);
  }

  lemma {:induction false} TextsTail(ns: seq<Node>, d: Dialect, k: nat)
    requires |ns| > 0
    ensures Texts(ns, d, k)[1..] == Texts(ns[1..], d, k + |Params(ns[0])|)
  {
    var parts := LeavesEach(ns);
    LeavesEachCons(ns);
    assert Params(ns[0]) == ParameterValues(parts[0]);
    PartTextsTail(parts, LeavesEach(ns[1..]), d.quote, d.placeholders, k, k + |Params(ns[0])|);
  }

  /** The parameters of nodes are the parameters of their leaves' runs. */
  lemma {:induction false} ParamsAllArePartParams(ns: seq<Node>)
    ensures ParamsAll(ns) == PartParams(LeavesEach(ns))
  {
    if |ns| > 0 {
      LeavesEachCons(ns);
      ParamsAllArePartParams(ns[1..]);
    }
  }

  /**
   * Text segments with nodes between them compile to the segments with the
   * nodes' texts between them, each node numbered after the parameters of
   * the nodes before it.
   */
  lemma {:induction false} InterposeText(segments: seq<string>, ns: seq<Node>, d: Dialect, k: nat)
    requires |segments| == |ns| + 1
    ensures TextAfter(Sequence(Interpose(segments, ns)), d, k) == Assemble(segments, Texts(ns, d, k))
  {
    InterposeLeaves(segments, ns);
    SplicedText(segments, LeavesEach(ns), d.quote, d.placeholders, k);
  }

  /** Text segments with nodes between them bind the nodes' parameters in order. */
  lemma {:induction false} InterposeParams(segments: seq<string>, ns: seq<Node>)
    requires |segments| == |ns| + 1
    ensures Params(Sequence(Interpose(segments, ns))) == ParamsAll(ns)
  {
    InterposeLeaves(segments, ns);
    SplicedParams(segments, LeavesEach(ns));
    ParamsAllArePartParams(ns);
  }

  /** Text segments with nodes between them compile exactly when every node does. */
  lemma {:induction false} InterposeWellFormed(segments: seq<string>, ns: seq<Node>)
    requires |segments| == |ns| + 1
    ensures WellFormed(Sequence(Interpose(segments, ns))) <==> forall i :: 0 <= i < |ns| ==> WellFormed(ns[i])
  {
    var parts := LeavesEach(ns);
    InterposeLeaves(segments, ns);
    SplicedWellFormed(segments, parts);
    assert AllWellFormedLeaves(parts) <==> forall i :: 0 <= i < |ns| ==> WellFormed(ns[i]) by {
      assert forall i :: 0 <= i < |ns| ==> parts[i] == Leaves(ns[i]);
    }
  }
}
