/**
 * How compiled fragments compose: splicing a fragment into another, putting
 * two fragments side by side, and what each kind of leaf compiles to on its
 * own.
 */
module Composition {
  import opened Wrappers
  import opened Values
  import opened Nodes
  import opened Dialects
  import opened Compiler

  /** True when no leaf among `ls` is a name, so the quote character cannot show up in the output. */
  predicate NameFree(ls: seq<Node>)
  {
    forall i :: 0 <= i < |ls| ==> !ls[i].Identifier? && !ls[i].TableRef?
  }

  /** Emitting name-free leaves does not depend on the quote character. */
  lemma {:induction false} NameFreeLeavesIgnoreQuote(ls: seq<Leaf>, q1: char, q2: char, next: nat)
    requires NameFree(ls)
    ensures EmitLeaves(ls, q1, next) == EmitLeaves(ls, q2, next)
  {
    if |ls| > 0 {
      var first := EmitLeaf(ls[0], q1, next);
      assert EmitLeaf(ls[0], q2, next) == first;
      NameFreeLeavesIgnoreQuote(ls[1..], q1, q2, next + |first.params|);
    }
  }

  lemma {:induction false} RenderOne(p: Piece, style: PlaceholderStyle)
    ensures Render([p], style) == RenderPiece(p, style)
  {
    assert [p][1..] == [];
  }

  lemma {:induction false} LeafIgnoresStart(leaf: Leaf, quote: char, j: nat, k: nat, style: PlaceholderStyle)
    requires !leaf.Parameter? || style.Anonymous?
    ensures |EmitLeaf(leaf, quote, j).params| == |EmitLeaf(leaf, quote, k).params|
    ensures Render(EmitLeaf(leaf, quote, j).pieces, style) == Render(EmitLeaf(leaf, quote, k).pieces, style)
  {
    var a := EmitLeaf(leaf, quote, j);
    var b := EmitLeaf(leaf, quote, k);
    assert |a.pieces| == 1 && |b.pieces| == 1;
    RenderOne(a.pieces[0], style);
    RenderOne(b.pieces[0], style);
  }

  /**
   * Rendering leaves does not depend on where the placeholder count starts
   * when they bind nothing or the placeholders carry no number.
   */
  lemma {:induction false} RenderIgnoresStart(ls: seq<Leaf>, quote: char, j: nat, k: nat, style: PlaceholderStyle)
    requires ParameterValues(ls) == [] || style.Anonymous?
    ensures Render(EmitLeaves(ls, quote, j).pieces, style) == Render(EmitLeaves(ls, quote, k).pieces, style)
  {
    if |ls| > 0 {
      var a := EmitLeaf(ls[0], quote, j);
      var b := EmitLeaf(ls[0], quote, k);
      var ra := EmitLeaves(ls[1..], quote, j + |a.params|);
      var rb := EmitLeaves(ls[1..], quote, k + |b.params|);
      assert EmitLeaves(ls, quote, j) == Then(a, ra);
      assert EmitLeaves(ls, quote, k) == Then(b, rb);
      assert ParameterValues(ls[1..]) == [] || style.Anonymous?;
      assert Render(a.pieces, style) == Render(b.pieces, style) by {
        LeafIgnoresStart(ls[0], quote, j, k, style);
      }
      assert Render(ra.pieces, style) == Render(rb.pieces, style) by {
        RenderIgnoresStart(ls[1..], quote, j + |a.params|, k + |b.params|, style);
      }
      RenderAppend(a.pieces, ra.pieces, style);
      RenderAppend(b.pieces, rb.pieces, style);
    }
  }

  /** Compiling a well-formed tree is rendering its leaves' flat output. */
  lemma {:induction false} CompileUnfolds(root: Node, d: Dialect, ls: seq<Leaf>)
    requires WellFormed(root)
    requires ls == Leaves(root)
    ensures Compile(root, d)
         == Success(CompiledQuery(Render(EmitLeaves(ls, d.quote, 0).pieces, d.placeholders), ParameterValues(ls)))
  {
    EmitIsFlat(root, d.quote, 0);
  }

  /**
   * Splice transparency: a fragment used as the only substitution of another
   * compiles exactly as it does on its own, for every dialect.
   */
  lemma {:induction false} SpliceIsTransparent(n: Node, d: Dialect)
    ensures Compile(Sequence([n]), d) == Compile(n, d)
  {
    assert Leaves(Sequence([n])) == Leaves(n) by {
      assert LeavesAll([n]) == Leaves(n) + LeavesAll([n][1..]);
      assert [n][1..] == [];
    }
    if WellFormed(n) {
      CompileUnfolds(n, d, Leaves(n));
      CompileUnfolds(Sequence([n]), d, Leaves(n));
    }
  }

  /**
   * The text `n` compiles to when `k` parameters have been bound before it:
   * its leaves' output, with placeholders numbered from `k + 1`.
   */
  function TextAfter(n: Node, d: Dialect, k: nat): string
  {
    Render(EmitLeaves(Leaves(n), d.quote, k).pieces, d.placeholders)
  }

  /** A well-formed tree compiles to its text after no parameters, binding its Parameter values. */
  lemma {:induction false} CompileIsTextAfter(n: Node, d: Dialect)
    requires WellFormed(n)
    ensures Compile(n, d) == Success(CompiledQuery(TextAfter(n, d, 0), Params(n)))
  {
    CompileUnfolds(n, d, Leaves(n));
  }

  /** The flat output of two leaf runs renders as the two runs rendered one after the other. */
  lemma {:induction false} RenderLeavesAppend(la: seq<Leaf>, lb: seq<Leaf>, q: char, style: PlaceholderStyle, k: nat)
    ensures Render(EmitLeaves(la + lb, q, k).pieces, style)
         == Render(EmitLeaves(la, q, k).pieces, style) + Render(EmitLeaves(lb, q, k + |ParameterValues(la)|).pieces, style)
  {
    var ea := EmitLeaves(la, q, k);
    var eb := EmitLeaves(lb, q, k + |ParameterValues(la)|);
    assert EmitLeaves(la + lb, q, k).pieces == ea.pieces + eb.pieces by {
      EmitLeavesAppend(la, lb, q, k);
    }
    RenderAppend(ea.pieces, eb.pieces, style);
  }

  /**
   * A sequence compiles child by child: the first child's text, then the
   * rest's text numbered after the first child's parameters; the parameters
   * and the well-formedness split the same way.
   */
  lemma {:induction false} SequenceStep(cs: seq<Node>, first: Node, rest: seq<Node>, d: Dialect, k: nat)
    requires cs == [first] + rest
    ensures TextAfter(Sequence(cs), d, k)
         == TextAfter(first, d, k) + TextAfter(Sequence(rest), d, k + |Params(first)|)
    ensures Params(Sequence(cs)) == Params(first) + Params(Sequence(rest))
    ensures WellFormed(Sequence(cs)) <==> WellFormed(first) && WellFormed(Sequence(rest))
  {
    LeavesCons(cs, first, rest);
    SplitText(Sequence(cs), first, Sequence(rest), d, k);
    ParameterValuesAppend(Leaves(first), Leaves(Sequence(rest)));
    WellFormedLeavesAppend(Leaves(first), Leaves(Sequence(rest)));
  }

  /** A tree that visits the leaves of `a` and then those of `b` has the text of `a`, then that of `b` numbered on. */
  lemma {:induction false} SplitText(n: Node, a: Node, b: Node, d: Dialect, k: nat)
    requires Leaves(n) == Leaves(a) + Leaves(b)
    ensures TextAfter(n, d, k) == TextAfter(a, d, k) + TextAfter(b, d, k + |Params(a)|)
  {
    LeavesSplitText(Leaves(n), Leaves(a), Leaves(b), d.quote, d.placeholders, k);
  }

  lemma {:induction false} LeavesSplitText(ln: seq<Leaf>, la: seq<Leaf>, lb: seq<Leaf>, q: char, style: PlaceholderStyle, k: nat)
    requires ln == la + lb
    ensures Render(EmitLeaves(ln, q, k).pieces, style)
         == Render(EmitLeaves(la, q, k).pieces, style) + Render(EmitLeaves(lb, q, k + |ParameterValues(la)|).pieces, style)
  {
    RenderLeavesAppend(la, lb, q, style, k);
  }

  /** The text of a tree is the rendered flat output of its leaves. */
  lemma {:induction false} TextOfLeaves(n: Node, d: Dialect, k: nat, ls: seq<Leaf>)
    requires ls == Leaves(n)
    ensures TextAfter(n, d, k) == Render(EmitLeaves(ls, d.quote, k).pieces, d.placeholders)
  {
  }

  /** The empty sequence compiles to no text and binds nothing. */
  lemma {:induction false} SequenceEnd(d: Dialect, k: nat)
    ensures TextAfter(Sequence([]), d, k) == ""
    ensures Params(Sequence([])) == []
    ensures WellFormed(Sequence([]))
  {
  }

  /**
   * Where the numbering starts does not change a fragment's text when it
   * binds nothing or the placeholders carry no number.
   */
  lemma {:induction false} TextIgnoresStart(n: Node, d: Dialect, j: nat, k: nat)
    requires Params(n) == [] || d.placeholders.Anonymous?
    ensures TextAfter(n, d, j) == TextAfter(n, d, k)
  {
    RenderIgnoresStart(Leaves(n), d.quote, j, k, d.placeholders);
  }

  /** A leaf binds its own value if it is a parameter, and only a name without parts fails to compile. */
  lemma LeafShape(n: Leaf)
    ensures Params(n) == ParameterValues([n])
    ensures WellFormed(n) <==> !(n.Identifier? || n.TableRef?) || |n.parts| > 0
  {
    assert Leaves(n) == [n];
  }

  /** The text of a leaf is the spelling of the one piece it emits. */
  lemma {:induction false} LeafText(n: Leaf, d: Dialect, k: nat)
    ensures TextAfter(n, d, k) == RenderPiece(EmitLeaf(n, d.quote, k).pieces[0], d.placeholders)
    ensures Params(n) == ParameterValues([n])
    ensures WellFormed(n) <==> !(n.Identifier? || n.TableRef?) || |n.parts| > 0
  {
    var e := EmitLeaf(n, d.quote, k);
    LeafShape(n);
    assert EmitLeaves([n], d.quote, k).pieces == [e.pieces[0]] by {
      assert [n][1..] == [];
    }
    RenderOne(e.pieces[0], d.placeholders);
  }

  /**
   * A parameter after `k` others is marked by the placeholder of number
   * `k + 1` and binds its value; the other leaves spell themselves and bind
   * nothing, whatever came before them.
   */
  lemma {:induction false} LeafTexts(n: Leaf, d: Dialect, k: nat)
    ensures n.Parameter? ==> TextAfter(n, d, k) == Placeholder(d.placeholders, k + 1) && Params(n) == [n.value]
    ensures n.Text? ==> TextAfter(n, d, k) == n.sql && Params(n) == []
    ensures n.Literal? ==> TextAfter(n, d, k) == LiteralText(n.value) && Params(n) == []
    ensures n.Identifier? || n.TableRef? ==> TextAfter(n, d, k) == QuotedPath(n.parts, d.quote) && Params(n) == []
  {
    LeafText(n, d, k);
  }

  /**
   * Two fragments side by side compile to the two texts one after the other
   * and the two parameter lists one after the other, provided the second
   * fragment's placeholder numbers need no shifting: the first binds nothing,
   * the second binds nothing, or placeholders are unnumbered. In particular
   * literals and names placed before parameters consume no placeholder number.
   */
  lemma {:induction false} Concatenation(x: Node, y: Node, d: Dialect)
    requires Params(x) == [] || Params(y) == [] || d.placeholders.Anonymous?
    ensures Compile(Sequence([x, y]), d).Success? <==> Compile(x, d).Success? && Compile(y, d).Success?
    ensures Compile(x, d).Success? && Compile(y, d).Success? ==>
              Compile(Sequence([x, y]), d).value
              == CompiledQuery(Compile(x, d).value.sql + Compile(y, d).value.sql,
                               Compile(x, d).value.parameters + Compile(y, d).value.parameters)
  {
    PairStep(x, y, d, 0);
    if WellFormed(x) && WellFormed(y) {
      var k := |Params(x)|;
      assert TextAfter(y, d, k) == TextAfter(y, d, 0) by {
        if k != 0 {
          TextIgnoresStart(y, d, k, 0);
        }
      }
      CompileIsTextAfter(x, d);
      CompileIsTextAfter(y, d);
      CompileIsTextAfter(Sequence([x, y]), d);
    }
  }

  /** Two fragments side by side: the second is numbered after the first's parameters. */
  lemma {:induction false} PairStep(x: Node, y: Node, d: Dialect, k: nat)
    ensures TextAfter(Sequence([x, y]), d, k) == TextAfter(x, d, k) + TextAfter(y, d, k + |Params(x)|)
    ensures Params(Sequence([x, y])) == Params(x) + Params(y)
    ensures WellFormed(Sequence([x, y])) <==> WellFormed(x) && WellFormed(y)
  {
    PairText(x, y, d, k);
    PairShape(x, y);
  }

  lemma {:induction false} PairText(x: Node, y: Node, d: Dialect, k: nat)
    ensures TextAfter(Sequence([x, y]), d, k) == TextAfter(x, d, k) + TextAfter(y, d, k + |Params(x)|)
  {
    LeavesPair(x, y);
    SplitText(Sequence([x, y]), x, y, d, k);
  }

  lemma {:induction false} PairShape(x: Node, y: Node)
    ensures Params(Sequence([x, y])) == Params(x) + Params(y)
    ensures WellFormed(Sequence([x, y])) <==> WellFormed(x) && WellFormed(y)
  {
    LeavesPair(x, y);
    ParameterValuesAppend(Leaves(x), Leaves(y));
    WellFormedLeavesAppend(Leaves(x), Leaves(y));
  }

  /** A sequence of one child compiles as the child does. */
  lemma {:induction false} SingletonStep(y: Node, d: Dialect, k: nat)
    ensures TextAfter(Sequence([y]), d, k) == TextAfter(y, d, k)
    ensures Params(Sequence([y])) == Params(y)
    ensures WellFormed(Sequence([y])) <==> WellFormed(y)
  {
    SequenceStep([y], y, [], d, k);
    SequenceEnd(d, k + |Params(y)|);
  }

  /** A leaf compiles to the single piece it emits. */
  lemma {:induction false} LeafCompiles(n: Leaf, d: Dialect)
    requires WellFormed(n)
    ensures Compile(n, d) == Success(CompiledQuery(RenderPiece(EmitLeaf(n, d.quote, 0).pieces[0], d.placeholders),
                                                   ParameterValues([n])))
  {
    assert Emit(n, d.quote, 0) == EmitLeaf(n, d.quote, 0);
    RenderOne(EmitLeaf(n, d.quote, 0).pieces[0], d.placeholders);
  }

  /** A name compiles to its quoted, dot-joined parts and binds nothing; a name with no parts is refused. */
  lemma {:induction false} NameCompiles(n: Node, d: Dialect)
    requires n.Identifier? || n.TableRef?
    ensures |n.parts| == 0 ==> Compile(n, d) == Failure(EmptyIdentifier)
    ensures |n.parts| > 0 ==> Compile(n, d) == Success(CompiledQuery(QuotedPath(n.parts, d.quote), []))
  {
    assert Leaves(n) == [n];
    if |n.parts| > 0 {
      LeafCompiles(n, d);
    }
  }

  /** A literal compiles to its inline spelling in every dialect and binds nothing. */
  lemma {:induction false} LiteralCompiles(v: Value, d: Dialect)
    ensures Compile(Literal(v), d) == Success(CompiledQuery(LiteralText(v), []))
  {
    assert Leaves(Literal(v)) == [Literal(v)];
    LeafCompiles(Literal(v), d);
  }

  /** A lone parameter compiles to the first placeholder and binds its value. */
  lemma {:induction false} ParameterCompiles(v: Value, d: Dialect)
    ensures Compile(Parameter(v), d) == Success(CompiledQuery(Placeholder(d.placeholders, 1), [v]))
  {
    assert Leaves(Parameter(v)) == [Parameter(v)];
    LeafCompiles(Parameter(v), d);
  }

  /** Verbatim text compiles to itself in every dialect and binds nothing. */
  lemma {:induction false} TextCompiles(s: string, d: Dialect)
    ensures Compile(Text(s), d) == Success(CompiledQuery(s, []))
  {
    assert Leaves(Text(s)) == [Text(s)];
    LeafCompiles(Text(s), d);
  }

  /**
   * A fragment that binds nothing and names nothing compiles to the same
   * result in every dialect.
   */
  lemma {:induction false} DialectFree(n: Node, d1: Dialect, d2: Dialect)
    requires Params(n) == []
    requires NameFree(Leaves(n))
    ensures Compile(n, d1) == Compile(n, d2)
  {
    if WellFormed(n) {
      assert Emit(n, d1.quote, 0) == Emit(n, d2.quote, 0) by {
        EmitIsFlat(n, d1.quote, 0);
        EmitIsFlat(n, d2.quote, 0);
        NameFreeLeavesIgnoreQuote(Leaves(n), d1.quote, d2.quote, 0);
      }
      assert Skeleton(n, d1.quote) == Skeleton(n, d2.quote);
    }
  }
}
