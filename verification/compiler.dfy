/**
 * The dialect compiler: a depth-first, left-to-right walk of a node tree that
 * produces SQL text and the ordered list of values to bind.
 *
 * The walk threads the number of parameters emitted so far and records each
 * placeholder as a numbered slot; rendering then spells every slot in the
 * dialect's placeholder style. Keeping the slot numbers visible lets the
 * contracts say which placeholder belongs to which value.
 */
module Compiler {
  import opened Wrappers
  import opened Strings
  import opened Values
  import opened Nodes
  import opened Dialects

  /** A stretch of emitted SQL: finished text, or the placeholder of parameter `index` (1-based). */
  datatype Piece = Chunk(text: string) | Slot(index: nat)

  /** What a walk has produced so far: the pieces of SQL text and the values to bind. */
  datatype Emission = Emission(pieces: seq<Piece>, params: seq<Value>)

  const Nothing: Emission := Emission([], [])

  /** The output of `a` followed by the output of `b`. */
  function Then(a: Emission, b: Emission): Emission
  {
    Emission(a.pieces + b.pieces, a.params + b.params)
  }

  /** The placeholder numbers among `ps`, in text order. */
  function Slots(ps: seq<Piece>): seq<nat>
  {
    if |ps| == 0 then []
    else (if ps[0].Slot? then [ps[0].index] else []) + Slots(ps[1..])
  }

  lemma {:induction false} SlotsAppend(a: seq<Piece>, b: seq<Piece>)
    ensures Slots(a + b) == Slots(a) + Slots(b)
  {
    if |a| == 0 {
      assert a + b == b;
    } else {
      assert (a + b)[0] == a[0];
      assert (a + b)[1..] == a[1..] + b;
      SlotsAppend(a[1..], b);
    }
  }

  /** The numbers `from`, `from + 1`, ..., `from + count - 1`. */
  function Numbers(from: nat, count: nat): (r: seq<nat>)
    ensures |r| == count
    decreases count
  {
    if count == 0 then [] else [from] + Numbers(from + 1, count - 1)
  }

  lemma {:induction false} NumbersAppend(from: nat, a: nat, b: nat)
    ensures Numbers(from, a) + Numbers(from + a, b) == Numbers(from, a + b)
    decreases a
  {
    if a > 0 {
      NumbersAppend(from + 1, a - 1, b);
      assert [from] + Numbers(from + 1, a - 1) + Numbers(from + a, b)
          == [from] + (Numbers(from + 1, a - 1) + Numbers(from + 1 + (a - 1), b));
    }
  }

  /**
   * The placeholders of `e` are exactly one per bound value and are numbered
   * `next + 1`, `next + 2`, ... with no gap, in the order of the values.
   */
  ghost predicate NumberedFrom(e: Emission, next: nat)
  {
    Slots(e.pieces) == Numbers(next + 1, |e.params|)
  }

  lemma {:induction false} ThenNumbered(a: Emission, b: Emission, next: nat)
    requires NumberedFrom(a, next)
    requires NumberedFrom(b, next + |a.params|)
    ensures NumberedFrom(Then(a, b), next)
  {
    SlotsAppend(a.pieces, b.pieces);
    NumbersAppend(next + 1, |a.params|, |b.params|);
  }

  /** The output of one leaf when `next` parameters have been emitted before it. */
  function EmitLeaf(n: Leaf, quote: char, next: nat): Emission
  {
    if n.Parameter? then Emission([Slot(next + 1)], [n.value])
    else Emission([Chunk(FixedText(n, quote))], [])
  }

  /** The SQL text of a leaf that binds nothing. */
  function FixedText(n: Leaf, quote: char): string
    requires !n.Parameter?
  {
    match n
    case Text(sql) => sql
    case Literal(v) => LiteralText(v)
    case Identifier(parts) => QuotedPath(parts, quote)
    case TableRef(parts) => QuotedPath(parts, quote)
  }

  /** A leaf binds its own value if it is a parameter, and its one slot, if any, is numbered `next + 1`. */
  lemma {:induction false} EmitLeafNumbered(n: Leaf, quote: char, next: nat)
    ensures NumberedFrom(EmitLeaf(n, quote, next), next)
    ensures EmitLeaf(n, quote, next).params == ParameterValues([n])
  {
    assert [n][1..] == [];
    var ps := EmitLeaf(n, quote, next).pieces;
    assert ps[1..] == [];
  }

  /**
   * The output of `n` when `next` parameters have been emitted before it:
   * children in order, and for a join the separator between consecutive items.
   */
  function Emit(n: Node, quote: char, next: nat): Emission
    decreases Size(n), 0
  {
    match n
    case Sequence(children) => EmitAll(children, quote, next)
    case Joined(items, separator) =>
      if |items| == 0 then Nothing
      else
        assert SizeAll(items) == Size(items[0]) + SizeAll(items[1..]);
        var first := Emit(items[0], quote, next);
        var rest := EmitSeparated(items[1..], separator, quote, next + |first.params|);
        Then(first, rest)
    case _ => EmitLeaf(n, quote, next)
  }

  function EmitAll(ns: seq<Node>, quote: char, next: nat): Emission
    decreases SizeAll(ns), 1
  {
    if |ns| == 0 then Nothing
    else
      var first := Emit(ns[0], quote, next);
      var rest := EmitAll(ns[1..], quote, next + |first.params|);
      Then(first, rest)
  }

  function EmitSeparated(rest: seq<Node>, separator: Node, quote: char, next: nat): Emission
    decreases SizeAll(rest) + Size(separator), 1
  {
    if |rest| == 0 then Nothing
    else
      var sep := Emit(separator, quote, next);
      var item := Emit(rest[0], quote, next + |sep.params|);
      var tail := EmitSeparated(rest[1..], separator, quote, next + |sep.params| + |item.params|);
      Then(sep, Then(item, tail))
  }

  /** The reference output: the leaves emitted one after another, nothing else. */
  function EmitLeaves(ls: seq<Leaf>, quote: char, next: nat): Emission
  {
    if |ls| == 0 then Nothing
    else
      var first := EmitLeaf(ls[0], quote, next);
      Then(first, EmitLeaves(ls[1..], quote, next + |first.params|))
  }

  /** The flat output binds exactly the Parameter leaves' values, in order. */
  lemma {:induction false} EmitLeavesParams(ls: seq<Leaf>, quote: char, next: nat)
    ensures EmitLeaves(ls, quote, next).params == ParameterValues(ls)
  {
    if |ls| > 0 {
      var first := EmitLeaf(ls[0], quote, next);
      EmitLeavesParams(ls[1..], quote, next + |first.params|);
    }
  }

  /** The flat output numbers its placeholders `next + 1`, `next + 2`, ... in the order of its values. */
  lemma {:induction false} EmitLeavesNumbered(ls: seq<Leaf>, quote: char, next: nat)
    ensures NumberedFrom(EmitLeaves(ls, quote, next), next)
  {
    if |ls| > 0 {
      var first := EmitLeaf(ls[0], quote, next);
      EmitLeafNumbered(ls[0], quote, next);
      EmitLeavesNumbered(ls[1..], quote, next + |first.params|);
      ThenNumbered(first, EmitLeaves(ls[1..], quote, next + |first.params|), next);
    }
  }

  lemma {:induction false} ThenAssociative(a: Emission, b: Emission, c: Emission)
    ensures Then(a, Then(b, c)) == Then(Then(a, b), c)
  {
    assert a.pieces + (b.pieces + c.pieces) == (a.pieces + b.pieces) + c.pieces;
    assert a.params + (b.params + c.params) == (a.params + b.params) + c.params;
  }

  lemma {:induction false} EmitLeavesAppend(a: seq<Leaf>, b: seq<Leaf>, quote: char, next: nat)
    ensures EmitLeaves(a + b, quote, next)
         == Then(EmitLeaves(a, quote, next), EmitLeaves(b, quote, next + |ParameterValues(a)|))
  {
    if |a| == 0 {
      assert a + b == b;
      assert Then(Nothing, EmitLeaves(b, quote, next)) == EmitLeaves(b, quote, next);
    } else {
      var c := a + b;
      var first := EmitLeaf(a[0], quote, next);
      var k := next + |first.params|;
      assert c[0] == a[0] && c[1..] == a[1..] + b;
      EmitLeavesCons(c, quote, next);
      EmitLeavesCons(a, quote, next);
      EmitLeavesAppend(a[1..], b, quote, k);
      CountAfterFirst(a, quote, next);
      Regroup(first, EmitLeaves(a[1..], quote, k), EmitLeaves(b, quote, next + |ParameterValues(a)|),
              EmitLeaves(c, quote, next), EmitLeaves(a, quote, next), EmitLeaves(c[1..], quote, k));
    }
  }

  /** `first` then (`x` then `y`) is (`first` then `x`) then `y`, under any names. */
  lemma {:induction false} Regroup(first: Emission, x: Emission, y: Emission, whole: Emission, front: Emission, rest: Emission)
    requires whole == Then(first, rest) && rest == Then(x, y) && front == Then(first, x)
    ensures whole == Then(front, y)
  {
    ThenAssociative(first, x, y);
  }

  /** The flat output of a non-empty run: its first leaf's, then the rest's numbered after it. */
  lemma {:induction false} EmitLeavesCons(ls: seq<Leaf>, quote: char, next: nat)
    requires |ls| > 0
    ensures EmitLeaves(ls, quote, next)
         == Then(EmitLeaf(ls[0], quote, next), EmitLeaves(ls[1..], quote, next + |EmitLeaf(ls[0], quote, next).params|))
  {
  }

  /** The first leaf's parameters and the rest's together are the run's. */
  lemma {:induction false} CountAfterFirst(ls: seq<Leaf>, quote: char, next: nat)
    requires |ls| > 0
    ensures |EmitLeaf(ls[0], quote, next).params| + |ParameterValues(ls[1..])| == |ParameterValues(ls)|
  {
    EmitLeafNumbered(ls[0], quote, next);
    ParameterValuesAppend([ls[0]], ls[1..]);
    HeadThenTail(ls);
  }

  /** Two emissions that each match their leaf runs, with the counter carried over, match the joined run. */
  lemma {:induction false} ThenIsFlat(first: Emission, rest: Emission, lf: seq<Leaf>, lr: seq<Leaf>, quote: char, next: nat)
    requires first == EmitLeaves(lf, quote, next)
    requires rest == EmitLeaves(lr, quote, next + |first.params|)
    ensures Then(first, rest) == EmitLeaves(lf + lr, quote, next)
  {
    EmitLeavesParams(lf, quote, next);
    EmitLeavesAppend(lf, lr, quote, next);
  }

  lemma {:induction false} ThreeAreFlat(a: Emission, b: Emission, c: Emission, la: seq<Leaf>, lb: seq<Leaf>, lc: seq<Leaf>,
                     quote: char, next: nat)
    requires a == EmitLeaves(la, quote, next)
    requires b == EmitLeaves(lb, quote, next + |a.params|)
    requires c == EmitLeaves(lc, quote, next + |a.params| + |b.params|)
    ensures Then(a, Then(b, c)) == EmitLeaves(la + (lb + lc), quote, next)
  {
    ThenIsFlat(b, c, lb, lc, quote, next + |a.params|);
    ThenIsFlat(a, Then(b, c), la, lb + lc, quote, next);
  }

  /**
   * Splice transparency: the tree walk produces exactly what emitting the
   * tree's leaves one after another produces, so nesting, sequencing and
   * joining change nothing but the order of the leaves.
   */
  lemma {:induction false} EmitIsFlat(n: Node, quote: char, next: nat)
    ensures Emit(n, quote, next) == EmitLeaves(Leaves(n), quote, next)
    decreases Size(n), 2
  {
    match n
    case Sequence(children) =>
      EmitAllIsFlat(children, quote, next);
    case Joined(items, separator) =>
      EmitJoinedIsFlat(items, separator, quote, next);
    case _ =>
      assert Leaves(n) == [n];
      assert EmitLeaves([n], quote, next) == Then(EmitLeaf(n, quote, next), Nothing);
  }

  lemma {:induction false} EmitJoinedIsFlat(items: seq<Node>, separator: Node, quote: char, next: nat)
    ensures Emit(Joined(items, separator), quote, next) == EmitLeaves(Leaves(Joined(items, separator)), quote, next)
    decreases Size(Joined(items, separator)), 1
  {
    var n := Joined(items, separator);
    if |items| == 0 {
      assert Leaves(n) == [];
    } else {
      assert SizeAll(items) == Size(items[0]) + SizeAll(items[1..]);
      var first := Emit(items[0], quote, next);
      var k := next + |first.params|;
      var rest := EmitSeparated(items[1..], separator, quote, k);
      assert Emit(n, quote, next) == Then(first, rest);
      assert Leaves(n) == Leaves(items[0]) + LeavesSeparated(items[1..], separator);
      assert first == EmitLeaves(Leaves(items[0]), quote, next) by {
        EmitIsFlat(items[0], quote, next);
      }
      assert rest == EmitLeaves(LeavesSeparated(items[1..], separator), quote, k) by {
        EmitSeparatedIsFlat(items[1..], separator, quote, k);
      }
      ThenIsFlat(first, rest, Leaves(items[0]), LeavesSeparated(items[1..], separator), quote, next);
    }
  }

  lemma {:induction false} EmitAllIsFlat(ns: seq<Node>, quote: char, next: nat)
    ensures EmitAll(ns, quote, next) == EmitLeaves(LeavesAll(ns), quote, next)
    decreases SizeAll(ns), 3
  {
    if |ns| == 0 {
      assert LeavesAll(ns) == [];
    } else {
      var first := Emit(ns[0], quote, next);
      var k := next + |first.params|;
      var rest := EmitAll(ns[1..], quote, k);
      assert EmitAll(ns, quote, next) == Then(first, rest);
      assert LeavesAll(ns) == Leaves(ns[0]) + LeavesAll(ns[1..]);
      EmitIsFlat(ns[0], quote, next);
      EmitAllIsFlat(ns[1..], quote, k);
      ThenIsFlat(first, rest, Leaves(ns[0]), LeavesAll(ns[1..]), quote, next);
    }
  }

  lemma {:induction false} EmitSeparatedStep(rest: seq<Node>, separator: Node, quote: char, next: nat,
                          sep: Emission, item: Emission, tail: Emission)
    requires |rest| > 0
    requires sep == Emit(separator, quote, next)
    requires item == Emit(rest[0], quote, next + |sep.params|)
    requires tail == EmitSeparated(rest[1..], separator, quote, next + |sep.params| + |item.params|)
    ensures EmitSeparated(rest, separator, quote, next) == Then(sep, Then(item, tail))
  {
  }

  lemma {:induction false} EmitSeparatedIsFlat(rest: seq<Node>, separator: Node, quote: char, next: nat)
    ensures EmitSeparated(rest, separator, quote, next)
         == EmitLeaves(LeavesSeparated(rest, separator), quote, next)
    decreases SizeAll(rest) + Size(separator), 3
  {
    if |rest| == 0 {
      assert LeavesSeparated(rest, separator) == [];
    } else {
      assert SizeAll(rest) == Size(rest[0]) + SizeAll(rest[1..]);
      var sep := Emit(separator, quote, next);
      var k1 := next + |sep.params|;
      var item := Emit(rest[0], quote, k1);
      var k2 := k1 + |item.params|;
      var tail := EmitSeparated(rest[1..], separator, quote, k2);
      assert EmitSeparated(rest, separator, quote, next) == Then(sep, Then(item, tail)) by {
        EmitSeparatedStep(rest, separator, quote, next, sep, item, tail);
      }
      var ls := Leaves(separator);
      var li := Leaves(rest[0]);
      var lt := LeavesSeparated(rest[1..], separator);
      assert LeavesSeparated(rest, separator) == ls + (li + lt);
      assert sep == EmitLeaves(ls, quote, next) by {
        EmitIsFlat(separator, quote, next);
      }
      assert item == EmitLeaves(li, quote, k1) by {
        EmitIsFlat(rest[0], quote, k1);
      }
      assert tail == EmitLeaves(lt, quote, k2) by {
        EmitSeparatedIsFlat(rest[1..], separator, quote, k2);
      }
      ThreeAreFlat(sep, item, tail, ls, li, lt, quote, next);
    }
  }

  /** Placeholder numbering: the walk numbers its placeholders consecutively from `next + 1`, one per bound value. */
  lemma {:induction false} EmitNumbered(n: Node, quote: char, next: nat)
    ensures NumberedFrom(Emit(n, quote, next), next)
  {
    EmitIsFlat(n, quote, next);
    EmitLeavesNumbered(Leaves(n), quote, next);
  }

  /** Parameter order: the walk binds the tree's Parameter values in pre-order, for every dialect. */
  lemma {:induction false} EmitParams(n: Node, quote: char, next: nat)
    ensures Emit(n, quote, next).params == Params(n)
  {
    EmitIsFlat(n, quote, next);
    EmitLeavesParams(Leaves(n), quote, next);
  }

  /** The SQL spelling of one piece in the given placeholder style. */
  function RenderPiece(p: Piece, style: PlaceholderStyle): string
  {
    match p
    case Chunk(text) => text
    case Slot(k) => Placeholder(style, k)
  }

  /** The SQL text of `ps`: every piece spelled in turn. */
  function Render(ps: seq<Piece>, style: PlaceholderStyle): string
  {
    if |ps| == 0 then "" else RenderPiece(ps[0], style) + Render(ps[1..], style)
  }

  lemma {:induction false} RenderAppend(a: seq<Piece>, b: seq<Piece>, style: PlaceholderStyle)
    ensures Render(a + b, style) == Render(a, style) + Render(b, style)
  {
    if |a| == 0 {
      assert a + b == b;
    } else {
      assert (a + b)[0] == a[0];
      assert (a + b)[1..] == a[1..] + b;
      RenderAppend(a[1..], b, style);
    }
  }

  /**
   * The text between placeholders: one more stretch than there are slots,
   * the first before the first placeholder and the last after the last.
   */
  function Gaps(ps: seq<Piece>): (g: seq<string>)
    ensures |g| == |Slots(ps)| + 1
  {
    if |ps| == 0 then [""]
    else
      var g := Gaps(ps[1..]);
      match ps[0]
      case Chunk(text) => [text + g[0]] + g[1..]
      case Slot(_) => [""] + g
  }

  /** `gaps[0] + tokens[0] + gaps[1] + ... + tokens[k-1] + gaps[k]`. */
  function Assemble(gaps: seq<string>, tokens: seq<string>): string
    requires |gaps| == |tokens| + 1
  {
    if |tokens| == 0 then gaps[0]
    else gaps[0] + tokens[0] + Assemble(gaps[1..], tokens[1..])
  }

  lemma {:induction false} AssembleAfterText(text: string, gaps: seq<string>, tokens: seq<string>)
    requires |gaps| == |tokens| + 1
    ensures Assemble([text + gaps[0]] + gaps[1..], tokens) == text + Assemble(gaps, tokens)
  {
    var g := [text + gaps[0]] + gaps[1..];
    assert g[1..] == gaps[1..];
  }

  /**
   * Rendering pieces whose slots are numbered `from`, `from + 1`, ... puts the
   * placeholders of those numbers, in that order, between the gaps.
   */
  lemma {:induction false} AssembleAfterToken(token: string, gaps: seq<string>, tokens: seq<string>)
    requires |gaps| == |tokens| + 1
    ensures Assemble([""] + gaps, [token] + tokens) == token + Assemble(gaps, tokens)
  {
    var g := [""] + gaps;
    var t := [token] + tokens;
    assert g[1..] == gaps;
    assert t[1..] == tokens;
    assert Assemble(g, t) == g[0] + t[0] + Assemble(gaps, tokens);
    assert g[0] + t[0] == token;
  }

  lemma {:induction false} RenderChunkStep(ps: seq<Piece>, style: PlaceholderStyle, from: nat)
    requires |ps| > 0 && ps[0].Chunk?
    requires Render(ps[1..], style) == Assemble(Gaps(ps[1..]), Placeholders(style, from, |Slots(ps[1..])|))
    ensures |Slots(ps)| == |Slots(ps[1..])|
    ensures Render(ps, style) == Assemble(Gaps(ps), Placeholders(style, from, |Slots(ps)|))
  {
    AssembleAfterText(ps[0].text, Gaps(ps[1..]), Placeholders(style, from, |Slots(ps[1..])|));
  }

  lemma {:induction false} RenderSlotStep(ps: seq<Piece>, style: PlaceholderStyle, from: nat)
    requires |ps| > 0 && ps[0] == Slot(from)
    requires Render(ps[1..], style) == Assemble(Gaps(ps[1..]), Placeholders(style, from + 1, |Slots(ps[1..])|))
    ensures |Slots(ps)| == |Slots(ps[1..])| + 1
    ensures Render(ps, style) == Assemble(Gaps(ps), Placeholders(style, from, |Slots(ps)|))
  {
    var m := |Slots(ps[1..])|;
    assert Placeholders(style, from, m + 1) == [Placeholder(style, from)] + Placeholders(style, from + 1, m);
    AssembleAfterToken(Placeholder(style, from), Gaps(ps[1..]), Placeholders(style, from + 1, m));
  }

  lemma {:induction false} RenderIsAssembled(ps: seq<Piece>, style: PlaceholderStyle, from: nat)
    requires Slots(ps) == Numbers(from, |Slots(ps)|)
    ensures Render(ps, style) == Assemble(Gaps(ps), Placeholders(style, from, |Slots(ps)|))
  {
    if |ps| > 0 {
      var rest := ps[1..];
      var m := |Slots(rest)|;
      if ps[0].Chunk? {
        assert Slots(ps) == Slots(rest);
        RenderIsAssembled(rest, style, from);
        RenderChunkStep(ps, style, from);
      } else {
        assert Slots(ps) == [ps[0].index] + Slots(rest);
        assert Slots(rest) == Numbers(from + 1, m) && ps[0].index == from by {
          assert Numbers(from, m + 1) == [from] + Numbers(from + 1, m);
          assert Slots(rest) == Slots(ps)[1..];
        }
        RenderIsAssembled(rest, style, from + 1);
        RenderSlotStep(ps, style, from);
      }
    }
  }

  datatype CompiledQuery = CompiledQuery(sql: string, parameters: seq<Value>)

  datatype CompileError =
      /** An Identifier or TableRef with no parts was reached. */
    | EmptyIdentifier

  /**
   * The text of `root` with its placeholders cut out: the stretches of SQL
   * between consecutive placeholders. It depends on the quote character only,
   * never on the placeholder style.
   */
  function Skeleton(root: Node, quote: char): (g: seq<string>)
    ensures |g| == |Params(root)| + 1
  {
    EmitParams(root, quote, 0);
    EmitNumbered(root, quote, 0);
    Gaps(Emit(root, quote, 0).pieces)
  }

  /**
   * Compiles `root` for dialect `d`. It fails exactly when a visited name has
   * no parts; otherwise the parameters are the tree's Parameter values in
   * pre-order, and the text is the skeleton with the placeholders of
   * parameters 1, 2, ..., n inserted in that order.
   */
  function Compile(root: Node, d: Dialect): (r: Result<CompiledQuery, CompileError>)
    ensures r.Success? <==> WellFormed(root)
    ensures r.Success? ==> r.value.parameters == Params(root)
    ensures r.Success? ==>
              r.value.sql == Assemble(Skeleton(root, d.quote), Placeholders(d.placeholders, 1, |Params(root)|))
  {
    if !WellFormed(root) then Failure(EmptyIdentifier)
    else
      var e := Emit(root, d.quote, 0);
      EmitParams(root, d.quote, 0);
      EmitNumbered(root, d.quote, 0);
      RenderIsAssembled(e.pieces, d.placeholders, 1);
      Success(CompiledQuery(Render(e.pieces, d.placeholders), e.params))
  }
}
