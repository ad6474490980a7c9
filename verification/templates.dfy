/**
 * What built fragments compile to: a template is its text segments with the
 * substitutions' texts between them, each substitution numbered after the
 * parameters of those before it; a join is its placeholders with the
 * separator's text between them; an alias appends ` as ` and the quoted name.
 */
module Templates {
  import opened Wrappers
  import opened Strings
  import opened Values
  import opened Nodes
  import opened Dialects
  import opened Compiler
  import opened Composition
  import opened Builder
  import opened Splicing

  /**
   * The texts the substitutions compile to, each numbered after the
   * parameters of those before it (`FillsCons` states it substitution by
   * substitution).
   */
  function Fills(subs: seq<Substitution>, d: Dialect, k: nat): (fs: seq<string>)
    ensures |fs| == |subs|
  {
    Texts(ClassifyAll(subs), d, k)
  }

  /** The parameters of the substitutions, one substitution after another. */
  function Bound(subs: seq<Substitution>): seq<Value>
  {
    ParamsAll(ClassifyAll(subs))
  }

  /** True when every substitution compiles on its own. */
  predicate AllWellFormed(subs: seq<Substitution>)
  {
    forall i :: 0 <= i < |subs| ==> WellFormed(Classify(subs[i]))
  }

  lemma {:induction false} ClassifyAllCons(subs: seq<Substitution>)
    requires |subs| > 0
    ensures ClassifyAll(subs)[0] == Classify(subs[0])
    ensures ClassifyAll(subs)[1..] == ClassifyAll(subs[1..])
  {
  }

  /** The fills of a template: its first substitution's text, then the rest's numbered after its parameters. */
  lemma {:induction false} FillsCons(subs: seq<Substitution>, d: Dialect, k: nat)
    requires |subs| > 0
    ensures Fills(subs, d, k)[0] == TextAfter(Classify(subs[0]), d, k)
    ensures Fills(subs, d, k)[1..] == Fills(subs[1..], d, k + |Params(Classify(subs[0]))|)
  {
    var ns := ClassifyAll(subs);
    ClassifyAllCons(subs);
    TextsHead(ns, d, k);
    TextsTail(ns, d, k);
  }

  /**
   * A template's text is its segments with the substitutions' texts in
   * between, each substitution numbered after the parameters of those before
   * it.
   */
  lemma {:induction false} TemplateText(segments: seq<string>, subs: seq<Substitution>, d: Dialect, k: nat)
    requires |segments| == |subs| + 1
    ensures TextAfter(Sequence(Weave(segments, subs)), d, k) == Assemble(segments, Fills(subs, d, k))
  {
    InterposeText(segments, ClassifyAll(subs), d, k);
  }

  /** A template binds its substitutions' parameters in template order and compiles exactly when every substitution does. */
  lemma {:induction false} TemplateShape(segments: seq<string>, subs: seq<Substitution>)
    requires |segments| == |subs| + 1
    ensures Params(Sequence(Weave(segments, subs))) == Bound(subs)
    ensures WellFormed(Sequence(Weave(segments, subs))) <==> AllWellFormed(subs)
  {
    var ns := ClassifyAll(subs);
    InterposeParams(segments, ns);
    InterposeWellFormed(segments, ns);
    assert AllWellFormed(subs) <==> forall i :: 0 <= i < |ns| ==> WellFormed(ns[i]);
  }

  /**
   * The `sql` tag: a well-counted template compiles exactly when every
   * substitution does, to its segments with the substitutions' texts in
   * between (placeholders numbered from 1 across the whole template), and
   * binds every substitution's parameters in template order.
   */
  lemma {:induction false} TemplateCompiles(segments: seq<string>, subs: seq<Substitution>, d: Dialect)
    requires |segments| == |subs| + 1
    ensures Compile(Build(segments, subs).value, d).Success? <==> AllWellFormed(subs)
    ensures AllWellFormed(subs) ==>
              Compile(Build(segments, subs).value, d).value
              == CompiledQuery(Assemble(segments, Fills(subs, d, 0)), Bound(subs))
  {
    TemplateText(segments, subs, d, 0);
    TemplateShape(segments, subs);
    if AllWellFormed(subs) {
      CompileIsTextAfter(Build(segments, subs).value, d);
    }
  }

  /** `sep` before every token: `sep + t1 + sep + t2 + ...`. */
  function Preceded(tokens: seq<string>, sep: string): string
  {
    if |tokens| == 0 then "" else sep + tokens[0] + Preceded(tokens[1..], sep)
  }

  lemma {:induction false} IntercalateIsPreceded(tokens: seq<string>, sep: string)
    requires |tokens| >= 1
    ensures Intercalate(tokens, sep) == tokens[0] + Preceded(tokens[1..], sep)
  {
    if |tokens| > 1 {
      IntercalateIsPreceded(tokens[1..], sep);
      assert tokens[1..][1..] == tokens[2..];
    }
  }

  /** A lone parameter after `k` others renders as the placeholder of number `k + 1`. */
  lemma {:induction false} ParameterLeafText(v: Value, q: char, style: PlaceholderStyle, k: nat)
    ensures Render(EmitLeaves([Parameter(v)], q, k).pieces, style) == Placeholder(style, k + 1)
    ensures ParameterValues([Parameter(v)]) == [v]
  {
    var ls: seq<Leaf> := [Parameter(v)];
    assert ls[1..] == [];
    assert EmitLeaves(ls, q, k).pieces == [Slot(k + 1)];
    assert [Slot(k + 1)][1..] == [];
  }

  /**
   * After the first value, a join emits for each further value the
   * separator's text and then that value's placeholder, numbered on from
   * `k + 1`; the separator's text does not depend on its position because
   * it binds nothing.
   */
  lemma {:induction false} InterspersedText(ls: seq<Leaf>, vs: seq<Value>, q: char, style: PlaceholderStyle, k: nat, s: string)
    requires ParameterValues(ls) == []
    requires s == Render(EmitLeaves(ls, q, 0).pieces, style)
    ensures Render(EmitLeaves(Interspersed(ls, vs), q, k).pieces, style) == Preceded(Placeholders(style, k + 1, |vs|), s)
  {
    if |vs| > 0 {
      InterspersedStep(ls, vs, q, style, k, s);
      InterspersedText(ls, vs[1..], q, style, k + 1, s);
      PlaceholdersPreceded(style, k + 1, |vs|, s);
    }
  }

  /** One value of a join after its first: the separator's text, then the value's placeholder. */
  lemma {:induction false} InterspersedStep(ls: seq<Leaf>, vs: seq<Value>, q: char, style: PlaceholderStyle, k: nat, s: string)
    requires |vs| > 0
    requires ParameterValues(ls) == []
    requires s == Render(EmitLeaves(ls, q, 0).pieces, style)
    ensures Render(EmitLeaves(Interspersed(ls, vs), q, k).pieces, style)
         == s + (Placeholder(style, k + 1) + Render(EmitLeaves(Interspersed(ls, vs[1..]), q, k + 1).pieces, style))
  {
    var tail := [Parameter(vs[0])] + Interspersed(ls, vs[1..]);
    assert Interspersed(ls, vs) == ls + tail;
    UnboundPrefixText(ls, tail, q, style, k, s);
    JoinHeadText(vs, ls, q, style, k);
  }

  /** Leaves that bind nothing render the same after any number of parameters, and shift nothing after them. */
  lemma {:induction false} UnboundPrefixText(ls: seq<Leaf>, tail: seq<Leaf>, q: char, style: PlaceholderStyle, k: nat, s: string)
    requires ParameterValues(ls) == []
    requires s == Render(EmitLeaves(ls, q, 0).pieces, style)
    ensures Render(EmitLeaves(ls + tail, q, k).pieces, style) == s + Render(EmitLeaves(tail, q, k).pieces, style)
  {
    RenderLeavesAppend(ls, tail, q, style, k);
    RenderIgnoresStart(ls, q, k, 0, style);
  }

  /** `s` before each marker from `from` on: `s`, the first marker, then the same for the rest. */
  lemma {:induction false} PlaceholdersPreceded(style: PlaceholderStyle, from: nat, count: nat, s: string)
    requires count > 0
    ensures Preceded(Placeholders(style, from, count), s) == s + (Placeholder(style, from) + Preceded(Placeholders(style, from + 1, count - 1), s))
  {
    PlaceholdersCons(style, from, count);
    var p, rest := Placeholder(style, from), Preceded(Placeholders(style, from + 1, count - 1), s);
    assert s + (p + rest) == s + p + rest;
  }

  /**
   * After the first value, a join needs its separator to be well-formed
   * exactly when there is an item, whatever the separator binds.
   */
  lemma {:induction false} InterspersedWellFormed(ls: seq<Leaf>, vs: seq<Value>)
    ensures WellFormedLeaves(Interspersed(ls, vs)) <==> |vs| == 0 || WellFormedLeaves(ls)
  {
    if |vs| > 0 {
      var p: seq<Leaf> := [Parameter(vs[0])];
      var rest := Interspersed(ls, vs[1..]);
      InterspersedWellFormed(ls, vs[1..]);
      WellFormedLeavesAppend(ls, p + rest);
      WellFormedLeavesAppend(p, rest);
    }
  }

  /** A join of values visits its first value, then the separator's leaves before every further value. */
  lemma {:induction false} JoinIsInterspersed(vs: seq<Value>, separator: Node)
    requires |vs| > 0
    ensures Leaves(Joined(JoinItems(vs), separator)) == [Parameter(vs[0])] + Interspersed(Leaves(separator), vs[1..])
  {
    JoinLeaves(vs, separator);
    SeparatedIsInterspersed(vs[1..], separator);
  }

  /** The markers from `from` on with `s` between them: the first marker, then `s` before each further one. */
  lemma {:induction false} PlaceholdersIntercalated(style: PlaceholderStyle, from: nat, count: nat, s: string)
    requires count > 0
    ensures Intercalate(Placeholders(style, from, count), s) == Placeholder(style, from) + Preceded(Placeholders(style, from + 1, count - 1), s)
  {
    PlaceholdersCons(style, from, count);
    IntercalateIsPreceded(Placeholders(style, from, count), s);
  }

  /** A join's first value renders as its placeholder, and the numbering of the rest moves on by one. */
  lemma {:induction false} JoinHeadText(vs: seq<Value>, ls: seq<Leaf>, q: char, style: PlaceholderStyle, k: nat)
    requires |vs| > 0
    ensures Render(EmitLeaves([Parameter(vs[0])] + Interspersed(ls, vs[1..]), q, k).pieces, style)
         == Placeholder(style, k + 1) + Render(EmitLeaves(Interspersed(ls, vs[1..]), q, k + 1).pieces, style)
  {
    var p: seq<Leaf> := [Parameter(vs[0])];
    RenderLeavesAppend(p, Interspersed(ls, vs[1..]), q, style, k);
    ParameterLeafText(vs[0], q, style, k);
  }

  /**
   * A join's leaves after `k` earlier parameters: its first value, then the
   * separator and a value for each further value, render as the numbered
   * placeholders with the separator's text between consecutive ones.
   */
  lemma {:induction false} JoinLeavesText(vs: seq<Value>, ls: seq<Leaf>, q: char, style: PlaceholderStyle, k: nat, s: string)
    requires |vs| > 0
    requires ParameterValues(ls) == []
    requires s == Render(EmitLeaves(ls, q, 0).pieces, style)
    ensures Render(EmitLeaves([Parameter(vs[0])] + Interspersed(ls, vs[1..]), q, k).pieces, style)
         == Intercalate(Placeholders(style, k + 1, |vs|), s)
  {
    JoinHeadText(vs, ls, q, style, k);
    InterspersedText(ls, vs[1..], q, style, k + 1, s);
    PlaceholdersIntercalated(style, k + 1, |vs|, s);
  }

  /** A join of at least one value, in terms of the leaves it visits. */
  lemma {:induction false} NonemptyJoinText(vs: seq<Value>, separator: Node, d: Dialect, k: nat)
    requires |vs| > 0
    requires Params(separator) == []
    ensures TextAfter(Joined(JoinItems(vs), separator), d, k)
         == Intercalate(Placeholders(d.placeholders, k + 1, |vs|), TextAfter(separator, d, 0))
  {
    var ls := Leaves(separator);
    var all := [Parameter(vs[0])] + Interspersed(ls, vs[1..]);
    assert all == Leaves(Joined(JoinItems(vs), separator)) by {
      JoinIsInterspersed(vs, separator);
    }
    TextOfLeaves(Joined(JoinItems(vs), separator), d, k, all);
    TextOfLeaves(separator, d, 0, ls);
    JoinLeavesText(vs, ls, d.quote, d.placeholders, k, TextAfter(separator, d, 0));
  }

  /**
   * `sql.join(values, separator)` with a separator that binds nothing: the
   * placeholders of the values, numbered on from `k + 1`, with the
   * separator's text between consecutive ones and none after the last.
   */
  lemma {:induction false} JoinText(vs: seq<Value>, separator: Node, d: Dialect, k: nat)
    requires Params(separator) == []
    ensures TextAfter(Joined(JoinItems(vs), separator), d, k)
         == Intercalate(Placeholders(d.placeholders, k + 1, |vs|), TextAfter(separator, d, 0))
  {
    if |vs| == 0 {
      EmptyJoinText(vs, separator, d, k);
    } else {
      NonemptyJoinText(vs, separator, d, k);
    }
  }

  /** A join of no values emits nothing. */
  lemma {:induction false} EmptyJoinText(vs: seq<Value>, separator: Node, d: Dialect, k: nat)
    requires |vs| == 0
    ensures TextAfter(Joined(JoinItems(vs), separator), d, k) == ""
  {
    assert JoinItems(vs) == [];
    TextOfLeaves(Joined([], separator), d, k, []);
  }

  /**
   * The separator of a join is visited only between items, so it matters to
   * whether the join compiles only when there are at least two values.
   */
  lemma {:induction false} JoinWellFormed(vs: seq<Value>, separator: Node)
    ensures WellFormed(Joined(JoinItems(vs), separator)) <==> |vs| <= 1 || WellFormed(separator)
  {
    if |vs| == 0 {
      assert Leaves(Joined(JoinItems(vs), separator)) == [] by {
        assert JoinItems(vs) == [];
      }
    } else {
      var ls := Leaves(separator);
      var p: seq<Leaf> := [Parameter(vs[0])];
      var rest := Interspersed(ls, vs[1..]);
      JoinIsInterspersed(vs, separator);
      assert WellFormedLeaves(rest) <==> |vs| <= 1 || WellFormedLeaves(ls) by {
        InterspersedWellFormed(ls, vs[1..]);
      }
      assert WellFormedLeaves(p + rest) <==> WellFormedLeaves(rest) by {
        WellFormedLeavesAppend(p, rest);
      }
    }
  }

  /**
   * What each kind of substitution compiles to after `k` parameters: a bare
   * value, the placeholder of number `k + 1`; a literal, its inline
   * spelling; a name, its quoted parts; a reference or a table, the quoted
   * parts of its dotted path; a join with a separator that binds nothing, its
   * placeholders with the separator between them; a fragment, its own text.
   */
  lemma {:induction false} SubstitutionText(sub: Substitution, d: Dialect, k: nat)
    ensures sub.Plain? ==> TextAfter(Classify(sub), d, k) == Placeholder(d.placeholders, k + 1)
    ensures sub.LiteralOf? ==> TextAfter(Classify(sub), d, k) == LiteralText(sub.value)
    ensures sub.IdOf? ==> TextAfter(Classify(sub), d, k) == QuotedPath(sub.names, d.quote)
    ensures sub.RefOf? ==> TextAfter(Classify(sub), d, k) == QuotedPath(Split(sub.reference, '.'), d.quote)
    ensures sub.TableOf? ==> TextAfter(Classify(sub), d, k) == QuotedPath(Split(sub.table, '.'), d.quote)
    ensures sub.JoinOf? && Params(sub.separator.GetOr(DefaultSeparator)) == [] ==>
              TextAfter(Classify(sub), d, k)
              == Intercalate(Placeholders(d.placeholders, k + 1, |sub.values|),
                             TextAfter(sub.separator.GetOr(DefaultSeparator), d, 0))
    ensures sub.Fragment? ==> TextAfter(Classify(sub), d, k) == TextAfter(sub.node, d, k)
  {
    match sub
    case JoinOf(vs, separator) =>
      if Params(separator.GetOr(DefaultSeparator)) == [] {
        JoinText(vs, separator.GetOr(DefaultSeparator), d, k);
      }
    case Fragment(n) =>
    case _ =>
      LeafTexts(Classify(sub), d, k);
  }

  /**
   * Which substitutions compile: bare values, literals, references and
   * tables always; a name exactly when it has a part; a join exactly when it
   * has at most one value or its separator compiles; a fragment exactly when
   * it compiles on its own.
   */
  lemma {:induction false} SubstitutionWellFormed(sub: Substitution)
    ensures sub.Plain? || sub.LiteralOf? || sub.RefOf? || sub.TableOf? ==> WellFormed(Classify(sub))
    ensures sub.IdOf? ==> (WellFormed(Classify(sub)) <==> |sub.names| > 0)
    ensures sub.JoinOf? ==>
              (WellFormed(Classify(sub)) <==> |sub.values| <= 1 || WellFormed(sub.separator.GetOr(DefaultSeparator)))
    ensures sub.Fragment? ==> (WellFormed(Classify(sub)) <==> WellFormed(sub.node))
  {
    match sub
    case JoinOf(vs, separator) =>
      JoinWellFormed(vs, separator.GetOr(DefaultSeparator));
    case Fragment(n) =>
    case _ =>
      LeafShape(Classify(sub));
  }

  /** A table path and a reference with the same text compile to the same quoted path. */
  lemma {:induction false} TableMatchesRef(path: string, d: Dialect, k: nat)
    ensures TextAfter(Classify(TableOf(path)), d, k) == TextAfter(Classify(RefOf(path)), d, k)
    ensures Params(Classify(TableOf(path))) == [] && Params(Classify(RefOf(path))) == []
  {
    LeafTexts(Classify(TableOf(path)), d, k);
    LeafTexts(Classify(RefOf(path)), d, k);
  }

  /**
   * `.as(alias)`: the fragment's text followed by ` as ` and the alias in
   * the dialect's quotes; it binds what the fragment binds and compiles
   * exactly when the fragment does.
   */
  lemma {:induction false} AliasText(n: Node, alias: string, d: Dialect, k: nat)
    ensures TextAfter(As(n, alias), d, k) == TextAfter(n, d, k) + " as " + QuoteIdent(alias, d.quote)
    ensures Params(As(n, alias)) == Params(n)
    ensures WellFormed(As(n, alias)) <==> WellFormed(n)
  {
    var t, name := TextAfter(n, d, k), QuoteIdent(alias, d.quote);
    assert t + (" as " + name) == t + " as " + name;
    var suffix := [Text(" as "), Identifier([alias])];
    assert As(n, alias).children == [n] + suffix;
    SequenceStep(As(n, alias).children, n, suffix, d, k);
    AliasSuffixText(alias, d, k + |Params(n)|);
    AliasSuffixShape(alias);
  }

  /** What `.as` appends: ` as ` and the quoted alias, wherever it stands. */
  lemma {:induction false} AliasSuffixText(alias: string, d: Dialect, m: nat)
    ensures TextAfter(Sequence([Text(" as "), Identifier([alias])]), d, m) == " as " + QuoteIdent(alias, d.quote)
  {
    var t := Text(" as ");
    var i := Identifier([alias]);
    PairStep(t, i, d, m);
    LeafTexts(t, d, m);
    LeafTexts(i, d, m);
  }

  /** What `.as` appends binds nothing and always compiles. */
  lemma {:induction false} AliasSuffixShape(alias: string)
    ensures Params(Sequence([Text(" as "), Identifier([alias])])) == []
    ensures WellFormed(Sequence([Text(" as "), Identifier([alias])]))
  {
    var t := Text(" as ");
    var i := Identifier([alias]);
    PairStep(t, i, Postgres, 0);
    LeafText(t, Postgres, 0);
    LeafText(i, Postgres, 0);
  }

  /** An aliased fragment compiles to the fragment's SQL, ` as ` and the quoted alias, with the fragment's parameters. */
  lemma {:induction false} AliasCompiles(n: Node, alias: string, d: Dialect)
    ensures Compile(As(n, alias), d).Success? <==> Compile(n, d).Success?
    ensures Compile(n, d).Success? ==>
              Compile(As(n, alias), d).value
              == CompiledQuery(Compile(n, d).value.sql + " as " + QuoteIdent(alias, d.quote), Compile(n, d).value.parameters)
  {
    AliasText(n, alias, d, 0);
    if WellFormed(n) {
      CompileIsTextAfter(n, d);
      CompileIsTextAfter(As(n, alias), d);
    }
  }
}
