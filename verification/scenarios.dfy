/**
 * The raw-SQL scenarios of the repository's tests, each compiled for
 * PostgreSQL, MySQL and SQLite: every condition or `from` fragment is built
 * with the `sql` tag and its helpers, wrapped in the `select * from ...`
 * statement the test's query builder produces, and compiled.
 */
module Scenarios {
  import opened Wrappers
  import opened Strings
  import opened Values
  import opened Nodes
  import opened Dialects
  import opened Compiler
  import opened Composition
  import opened Builder
  import opened Splicing
  import opened Templates

  /* ---------- templates of one, two and three substitutions ---------- */

  lemma {:induction false} AssembleTwo(g0: string, g1: string, t0: string)
    ensures Assemble([g0, g1], [t0]) == g0 + t0 + g1
  {
    assert [g0, g1][1..] == [g1];
    assert [t0][1..] == [];
  }

  lemma {:induction false} AssembleThree(g0: string, g1: string, g2: string, t0: string, t1: string)
    ensures Assemble([g0, g1, g2], [t0, t1]) == g0 + t0 + (g1 + t1 + g2)
  {
    assert [g0, g1, g2][1..] == [g1, g2];
    assert [t0, t1][1..] == [t1];
    AssembleTwo(g1, g2, t1);
  }

  lemma {:induction false} AssembleFour(g0: string, g1: string, g2: string, g3: string, t0: string, t1: string, t2: string)
    ensures Assemble([g0, g1, g2, g3], [t0, t1, t2]) == g0 + t0 + (g1 + t1 + (g2 + t2 + g3))
  {
    assert [g0, g1, g2, g3][1..] == [g1, g2, g3];
    assert [t0, t1, t2][1..] == [t1, t2];
    AssembleThree(g1, g2, g3, t1, t2);
  }

  /** A text known to be four gaps around three texts, read as one concatenation. */
  lemma {:induction false} FourGapsText(x: string, g0: string, g1: string, g2: string, g3: string,
                                       ts: seq<string>, t0: string, t1: string, t2: string)
    requires ts == [t0, t1, t2] && x == Assemble([g0, g1, g2, g3], ts)
    ensures x == g0 + t0 + (g1 + t1 + (g2 + t2 + g3))
  {
    AssembleFour(g0, g1, g2, g3, t0, t1, t2);
  }

  /** The `sql` tag's result is the segments with the substitutions' nodes between them. */
  lemma {:induction false} BuildIsInterposed(segments: seq<string>, subs: seq<Substitution>)
    requires |segments| == |subs| + 1
    ensures Build(segments, subs) == Success(Sequence(Interpose(segments, ClassifyAll(subs))))
  {
  }

  /** Text segments around one node: the node's text between them, the node's parameters and needs. */
  lemma {:induction false} AroundOne(g0: string, g1: string, n0: Node, d: Dialect, k: nat)
    ensures TextAfter(Sequence(Interpose([g0, g1], [n0])), d, k) == g0 + TextAfter(n0, d, k) + g1
    ensures Params(Sequence(Interpose([g0, g1], [n0]))) == Params(n0)
    ensures WellFormed(Sequence(Interpose([g0, g1], [n0]))) <==> WellFormed(n0)
  {
    var ns := [n0];
    InterposeText([g0, g1], ns, d, k);
    InterposeParams([g0, g1], ns);
    InterposeWellFormed([g0, g1], ns);
    TextsHead(ns, d, k);
    assert (forall i :: 0 <= i < |ns| ==> WellFormed(ns[i])) <==> WellFormed(n0) by {
      assert ns[0] == n0;
    }
    AssembleTwo(g0, g1, Texts(ns, d, k)[0]);
  }

  /** The text of one node. */
  lemma {:induction false} TextsOfOne(n0: Node, d: Dialect, k: nat)
    ensures Texts([n0], d, k) == [TextAfter(n0, d, k)]
  {
    TextsHead([n0], d, k);
  }

  /** The texts of nodes: the first node's text, then the rest numbered after its parameters. */
  lemma {:induction false} TextsSplit(ns: seq<Node>, first: Node, rest: seq<Node>, d: Dialect, k: nat, m: nat)
    requires ns == [first] + rest && m == k + |Params(first)|
    ensures Texts(ns, d, k) == [TextAfter(first, d, k)] + Texts(rest, d, m)
  {
    assert ns[0] == first && ns[1..] == rest;
    TextsHead(ns, d, k);
    TextsTail(ns, d, k);
    HeadThenTail(Texts(ns, d, k));
  }

  /** The texts of two nodes: the second is numbered after the first's parameters. */
  lemma {:induction false} TextsOfTwo(n0: Node, n1: Node, d: Dialect, k: nat)
    ensures Texts([n0, n1], d, k) == [TextAfter(n0, d, k), TextAfter(n1, d, k + |Params(n0)|)]
  {
    TextsSplit([n0, n1], n0, [n1], d, k, k + |Params(n0)|);
    TextsOfOne(n1, d, k + |Params(n0)|);
  }

  /** Text segments around two nodes: the second is numbered after the first's parameters. */
  lemma {:induction false} AroundTwo(g0: string, g1: string, g2: string, n0: Node, n1: Node, d: Dialect)
    ensures TextAfter(Sequence(Interpose([g0, g1, g2], [n0, n1])), d, 0)
         == g0 + TextAfter(n0, d, 0) + (g1 + TextAfter(n1, d, |Params(n0)|) + g2)
  {
    InterposeText([g0, g1, g2], [n0, n1], d, 0);
    TextsOfTwo(n0, n1, d, 0);
    AssembleThree(g0, g1, g2, TextAfter(n0, d, 0), TextAfter(n1, d, |Params(n0)|));
  }

  /** The texts of three nodes: each is numbered after the parameters of those before it. */
  lemma {:induction false} TextsOfThree(n0: Node, n1: Node, n2: Node, d: Dialect, m: nat)
    requires m == |Params(n0)|
    ensures Texts([n0, n1, n2], d, 0)
         == [TextAfter(n0, d, 0), TextAfter(n1, d, m), TextAfter(n2, d, m + |Params(n1)|)]
  {
    TextsSplit([n0, n1, n2], n0, [n1, n2], d, 0, m);
    TextsOfTwo(n1, n2, d, m);
  }

  /** Text segments around three nodes whose texts, each numbered after the nodes before it, are known. */
  lemma {:induction false} AroundThree(g0: string, g1: string, g2: string, g3: string, n0: Node, n1: Node, n2: Node, d: Dialect,
                                       t0: string, t1: string, t2: string)
    requires TextAfter(n0, d, 0) == t0
    requires TextAfter(n1, d, |Params(n0)|) == t1
    requires TextAfter(n2, d, |Params(n0)| + |Params(n1)|) == t2
    ensures TextAfter(Sequence(Interpose([g0, g1, g2, g3], [n0, n1, n2])), d, 0) == g0 + t0 + (g1 + t1 + (g2 + t2 + g3))
  {
    InterposeText([g0, g1, g2, g3], [n0, n1, n2], d, 0);
    TextsOfThree(n0, n1, n2, d, |Params(n0)|);
    FourGapsText(TextAfter(Sequence(Interpose([g0, g1, g2, g3], [n0, n1, n2])), d, 0), g0, g1, g2, g3,
                  Texts([n0, n1, n2], d, 0), t0, t1, t2);
  }

  /** Text segments around three nodes bind the nodes' parameters in order and need all three to compile. */
  lemma {:induction false} AroundThreeShape(g0: string, g1: string, g2: string, g3: string, n0: Node, n1: Node, n2: Node)
    ensures Params(Sequence(Interpose([g0, g1, g2, g3], [n0, n1, n2]))) == Params(n0) + (Params(n1) + Params(n2))
    ensures WellFormed(Sequence(Interpose([g0, g1, g2, g3], [n0, n1, n2])))
        <==> WellFormed(n0) && WellFormed(n1) && WellFormed(n2)
  {
    var ns := [n0, n1, n2];
    InterposeParams([g0, g1, g2, g3], ns);
    InterposeWellFormed([g0, g1, g2, g3], ns);
    assert ns[1..] == [n1, n2] && ns[1..][1..] == [n2] && ns[1..][1..][1..] == [];
    assert ParamsAll(ns[1..][1..]) == Params(n2) + ParamsAll([]);
    assert ParamsAll(ns[1..]) == Params(n1) + ParamsAll(ns[1..][1..]);
    assert (forall i :: 0 <= i < |ns| ==> WellFormed(ns[i])) <==> WellFormed(n0) && WellFormed(n1) && WellFormed(n2) by {
      assert ns[0] == n0 && ns[1] == n1 && ns[2] == n2;
    }
  }

  /** Text segments around one node whose text is known. */
  lemma {:induction false} AroundOneWith(g0: string, g1: string, n0: Node, d: Dialect, t: string)
    requires TextAfter(n0, d, 0) == t
    ensures TextAfter(Sequence(Interpose([g0, g1], [n0])), d, 0) == g0 + t + g1
  {
    AroundOne(g0, g1, n0, d, 0);
  }

  /** Text segments around two nodes bind both nodes' parameters and need both nodes to compile. */
  lemma {:induction false} AroundTwoShape(g0: string, g1: string, g2: string, n0: Node, n1: Node)
    ensures Params(Sequence(Interpose([g0, g1, g2], [n0, n1]))) == Params(n0) + Params(n1)
    ensures WellFormed(Sequence(Interpose([g0, g1, g2], [n0, n1]))) <==> WellFormed(n0) && WellFormed(n1)
  {
    var ns := [n0, n1];
    InterposeParams([g0, g1, g2], ns);
    InterposeWellFormed([g0, g1, g2], ns);
    assert ns[1..] == [n1] && ns[1..][1..] == [];
    assert ParamsAll(ns[1..]) == Params(n1) + ParamsAll([]);
    assert (forall i :: 0 <= i < |ns| ==> WellFormed(ns[i])) <==> WellFormed(n0) && WellFormed(n1) by {
      assert ns[0] == n0 && ns[1] == n1;
    }
  }

  /* ---------- the statements the tests wrap their fragments in ---------- */

  /** `selectFrom(table).selectAll().where(condition)`: `select * from`, the quoted table, `where` and the condition. */
  function SelectAllWhere(table: string, condition: Node): Node
  {
    Sequence(Interpose(["select * from ", " where ", ""], [TableRef([table]), condition]))
  }

  /** `selectFrom(source).selectAll()` for a source given as a fragment. */
  function SelectAllFrom(source: Node): Node
  {
    Sequence(Interpose(["select * from ", ""], [source]))
  }

  /** A one-part table name compiles to the name in the dialect's quotes and binds nothing. */
  lemma {:induction false} TableNameText(table: string, d: Dialect, k: nat)
    ensures TextAfter(TableRef([table]), d, k) == QuoteIdent(table, d.quote)
    ensures Params(TableRef([table])) == []
    ensures WellFormed(TableRef([table]))
  {
    LeafTexts(TableRef([table]), d, k);
    LeafText(TableRef([table]), d, k);
  }

  /**
   * A `where` statement compiles whenever its condition does: to the quoted
   * table and the condition's text, numbered from 1, binding exactly the
   * condition's parameters.
   */
  lemma {:induction false} WhereCompiles(table: string, condition: Node, d: Dialect)
    requires WellFormed(condition)
    ensures Compile(SelectAllWhere(table, condition), d)
         == Success(CompiledQuery("select * from " + QuoteIdent(table, d.quote) + (" where " + TextAfter(condition, d, 0)),
                                  Params(condition)))
  {
    var t := TableRef([table]);
    var q := SelectAllWhere(table, condition);
    TableNameText(table, d, 0);
    AroundTwo("select * from ", " where ", "", t, condition, d);
    AroundTwoShape("select * from ", " where ", "", t, condition);
    CompileIsTextAfter(q, d);
    assert " where " + TextAfter(condition, d, 0) + "" == " where " + TextAfter(condition, d, 0);
    assert TextAfter(q, d, 0) == "select * from " + QuoteIdent(table, d.quote) + (" where " + TextAfter(condition, d, 0));
    assert Params(q) == Params(condition);
  }

  /** A `from` statement compiles whenever its source does, to the source's text after `select * from `. */
  lemma {:induction false} FromCompiles(source: Node, d: Dialect)
    requires WellFormed(source)
    ensures Compile(SelectAllFrom(source), d) == Success(CompiledQuery("select * from " + TextAfter(source, d, 0), Params(source)))
  {
    AroundOne("select * from ", "", source, d, 0);
    CompileIsTextAfter(SelectAllFrom(source), d);
    assert "select * from " + TextAfter(source, d, 0) + "" == "select * from " + TextAfter(source, d, 0);
  }

  /** A `where` statement around a condition whose text and parameters are known. */
  lemma {:induction false} WhereOf(table: string, condition: Node, d: Dialect, text: string, ps: seq<Value>)
    requires WellFormed(condition) && TextAfter(condition, d, 0) == text && Params(condition) == ps
    ensures Compile(SelectAllWhere(table, condition), d)
         == Success(CompiledQuery("select * from " + QuoteIdent(table, d.quote) + (" where " + text), ps))
  {
    WhereCompiles(table, condition, d);
  }

  /* ---------- the markers and quotes of the three dialects ---------- */

  lemma {:induction false} DialectSpellings()
    ensures Placeholder(Postgres.placeholders, 1) == "$1"
    ensures Placeholder(Postgres.placeholders, 2) == "$2"
    ensures Placeholder(Postgres.placeholders, 3) == "$3"
    ensures Placeholder(MySql.placeholders, 1) == "?" && Placeholder(MySql.placeholders, 2) == "?"
    ensures Placeholder(Sqlite.placeholders, 1) == "?" && Placeholder(Sqlite.placeholders, 2) == "?"
    ensures QuoteIdent("person", Postgres.quote) == "\"person\""
    ensures QuoteIdent("person", MySql.quote) == "`person`"
    ensures QuoteIdent("person", Sqlite.quote) == "\"person\""
  {
    assert NatToDecimal(1) == "1" && NatToDecimal(2) == "2" && NatToDecimal(3) == "3";
  }

  /* ---------- a condition with two substitutions ---------- */

  /** `sql`first_name between ${low} and ${high}``. */
  function BetweenOf(low: Substitution, high: Substitution): Node
  {
    Build(["first_name between ", " and ", ""], [low, high]).value
  }

  /** The condition with its substitutions' nodes in place. */
  lemma {:induction false} BetweenOfNodes(low: Substitution, high: Substitution)
    ensures BetweenOf(low, high)
         == Sequence(Interpose(["first_name between ", " and ", ""], [Classify(low), Classify(high)]))
  {
    BuildIsInterposed(["first_name between ", " and ", ""], [low, high]);
    assert ClassifyAll([low, high]) == [Classify(low), Classify(high)];
  }

  /**
   * The condition's text: the first substitution's text and then the
   * second's, numbered after the first's parameters.
   */
  lemma {:induction false} BetweenOfText(low: Substitution, high: Substitution, d: Dialect, t0: string, t1: string)
    requires TextAfter(Classify(low), d, 0) == t0
    requires TextAfter(Classify(high), d, |Params(Classify(low))|) == t1
    ensures TextAfter(BetweenOf(low, high), d, 0) == "first_name between " + t0 + (" and " + t1)
  {
    BetweenOfNodes(low, high);
    AroundTwo("first_name between ", " and ", "", Classify(low), Classify(high), d);
    assert " and " + t1 + "" == " and " + t1;
  }

  /** The condition binds the first substitution's parameters, then the second's, and needs both to compile. */
  lemma {:induction false} BetweenOfShape(low: Substitution, high: Substitution)
    ensures Params(BetweenOf(low, high)) == Params(Classify(low)) + Params(Classify(high))
    ensures WellFormed(BetweenOf(low, high)) <==> WellFormed(Classify(low)) && WellFormed(Classify(high))
  {
    BetweenOfNodes(low, high);
    AroundTwoShape("first_name between ", " and ", "", Classify(low), Classify(high));
  }

  /* ---------- substitutions are parameters by default ---------- */

  /** `sql`first_name between ${'A'} and ${'B'}``. */
  function BetweenValues(): Node
  {
    BetweenOf(Plain(Str("A")), Plain(Str("B")))
  }

  /** Bare values become placeholders 1 and 2. */
  lemma {:induction false} BetweenValuesText(d: Dialect)
    ensures TextAfter(BetweenValues(), d, 0)
         == "first_name between " + Placeholder(d.placeholders, 1) + (" and " + Placeholder(d.placeholders, 2))
  {
    var a := Plain(Str("A"));
    var b := Plain(Str("B"));
    assert Classify(a) == Parameter(Str("A")) && Classify(b) == Parameter(Str("B"));
    TwoParameters(Str("A"), Str("B"), d);
    assert |Params(Classify(a))| == 1;
    BetweenOfText(a, b, d, Placeholder(d.placeholders, 1), Placeholder(d.placeholders, 2));
  }

  /** A bare value binds itself and always compiles. */
  lemma {:induction false} ParameterShape(v: Value)
    ensures Params(Parameter(v)) == [v] && WellFormed(Parameter(v))
  {
    assert Leaves(Parameter(v)) == [Parameter(v)];
  }

  /** Bare values bind `A`, then `B`. */
  lemma {:induction false} BetweenValuesShape()
    ensures Params(BetweenValues()) == [Str("A"), Str("B")]
    ensures WellFormed(BetweenValues())
  {
    var a := Plain(Str("A"));
    var b := Plain(Str("B"));
    assert Classify(a) == Parameter(Str("A")) && Classify(b) == Parameter(Str("B"));
    ParameterShape(Str("A"));
    ParameterShape(Str("B"));
    BetweenOfShape(a, b);
  }

  /** The test's statement in every dialect: the table, then the placeholders, binding `A` and `B`. */
  lemma {:induction false} ParametersByDefault(d: Dialect)
    ensures Compile(SelectAllWhere("person", BetweenValues()), d)
         == Success(CompiledQuery("select * from " + QuoteIdent("person", d.quote)
                                  + (" where " + ("first_name between " + Placeholder(d.placeholders, 1)
                                                  + (" and " + Placeholder(d.placeholders, 2)))),
                                  [Str("A"), Str("B")]))
  {
    BetweenValuesText(d);
    BetweenValuesShape();
    WhereOf("person", BetweenValues(), d,
            "first_name between " + Placeholder(d.placeholders, 1) + (" and " + Placeholder(d.placeholders, 2)),
            [Str("A"), Str("B")]);
  }

  /* ---------- sql.literal ---------- */

  /** `sql`first_name between ${sql.literal('A')} and ${sql.literal('B')}``. */
  function BetweenLiterals(): Node
  {
    BetweenOf(LiteralOf(Str("A")), LiteralOf(Str("B")))
  }

  /** An inline literal is its own spelling, binds nothing and always compiles. */
  lemma {:induction false} LiteralLeaf(v: Value, d: Dialect)
    ensures TextAfter(Literal(v), d, 0) == LiteralText(v)
    ensures Params(Literal(v)) == [] && WellFormed(Literal(v))
  {
    LeafTexts(Literal(v), d, 0);
    LeafText(Literal(v), d, 0);
  }

  /** Literals are written into the text, quoted. */
  lemma {:induction false} BetweenLiteralsText(d: Dialect)
    ensures TextAfter(BetweenLiterals(), d, 0)
         == "first_name between " + LiteralText(Str("A")) + (" and " + LiteralText(Str("B")))
  {
    var a := LiteralOf(Str("A"));
    var b := LiteralOf(Str("B"));
    assert Classify(a) == Literal(Str("A")) && Classify(b) == Literal(Str("B"));
    LiteralLeaf(Str("A"), d);
    LiteralLeaf(Str("B"), d);
    assert |Params(Classify(a))| == 0;
    BetweenOfText(a, b, d, LiteralText(Str("A")), LiteralText(Str("B")));
  }

  /** Literals bind nothing. */
  lemma {:induction false} BetweenLiteralsShape()
    ensures Params(BetweenLiterals()) == []
    ensures WellFormed(BetweenLiterals())
  {
    var a := LiteralOf(Str("A"));
    var b := LiteralOf(Str("B"));
    assert Classify(a) == Literal(Str("A")) && Classify(b) == Literal(Str("B"));
    LiteralLeaf(Str("A"), Postgres);
    LiteralLeaf(Str("B"), Postgres);
    BetweenOfShape(a, b);
  }

  /** The test's statement in every dialect: the table, then the two literals inline, binding nothing. */
  lemma {:induction false} LiteralsInline(d: Dialect)
    ensures Compile(SelectAllWhere("person", BetweenLiterals()), d)
         == Success(CompiledQuery("select * from " + QuoteIdent("person", d.quote)
                                  + (" where " + ("first_name between " + LiteralText(Str("A"))
                                                  + (" and " + LiteralText(Str("B"))))),
                                  []))
  {
    BetweenLiteralsText(d);
    BetweenLiteralsShape();
    WhereOf("person", BetweenLiterals(), d,
            "first_name between " + LiteralText(Str("A")) + (" and " + LiteralText(Str("B"))), []);
  }

  /* ---------- sql.id and sql.ref ---------- */

  /** `sql`${column} between ${'A'} and ${'B'}``. */
  function ColumnBetween(column: Substitution): Node
  {
    Build(["", " between ", " and ", ""], [column, Plain(Str("A")), Plain(Str("B"))]).value
  }

  /** The condition with its substitutions' nodes in place. */
  lemma {:induction false} ColumnBetweenNodes(column: Substitution)
    ensures ColumnBetween(column) == ColumnThenValues(Classify(column))
  {
    var subs := [column, Plain(Str("A")), Plain(Str("B"))];
    BuildIsInterposed(["", " between ", " and ", ""], subs);
    assert ClassifyAll(subs) == [Classify(column), Parameter(Str("A")), Parameter(Str("B"))];
  }

  /** The condition's nodes: a column node, then the two bare values. */
  function ColumnThenValues(c: Node): Node
  {
    Sequence(Interpose(["", " between ", " and ", ""], [c, Parameter(Str("A")), Parameter(Str("B"))]))
  }

  /** A column node that binds nothing: its text, then placeholders 1 and 2. */
  lemma {:induction false} ColumnThenValuesText(c: Node, d: Dialect, t: string)
    requires Params(c) == [] && TextAfter(c, d, 0) == t
    ensures TextAfter(ColumnThenValues(c), d, 0)
         == t + (" between " + Placeholder(d.placeholders, 1) + (" and " + Placeholder(d.placeholders, 2)))
  {
    var a := Parameter(Str("A"));
    var b := Parameter(Str("B"));
    TwoParameters(Str("A"), Str("B"), d);
    assert |Params(c)| == 0 && |Params(c)| + |Params(a)| == 1;
    AroundThree("", " between ", " and ", "", c, a, b, d, t, Placeholder(d.placeholders, 1), Placeholder(d.placeholders, 2));
    AroundThreeTidy(t, Placeholder(d.placeholders, 1), Placeholder(d.placeholders, 2));
  }

  lemma AroundThreeTidy(t0: string, t1: string, t2: string)
    ensures "" + t0 + (" between " + t1 + (" and " + t2 + "")) == t0 + (" between " + t1 + (" and " + t2))
  {
  }

  /** A column node that binds nothing leaves `A`, then `B`, to bind, and compiles exactly when the column does. */
  lemma {:induction false} ColumnThenValuesShape(c: Node)
    requires Params(c) == []
    ensures Params(ColumnThenValues(c)) == [Str("A"), Str("B")]
    ensures WellFormed(ColumnThenValues(c)) <==> WellFormed(c)
  {
    var a := Parameter(Str("A"));
    var b := Parameter(Str("B"));
    AroundThreeShape("", " between ", " and ", "", c, a, b);
    ParameterShape(Str("A"));
    ParameterShape(Str("B"));
  }

  /** A parameter after none renders as marker 1; one after one renders as marker 2; each binds its value. */
  lemma {:induction false} TwoParameters(x: Value, y: Value, d: Dialect)
    ensures TextAfter(Parameter(x), d, 0) == Placeholder(d.placeholders, 1)
    ensures TextAfter(Parameter(y), d, 1) == Placeholder(d.placeholders, 2)
    ensures Params(Parameter(x)) == [x] && Params(Parameter(y)) == [y]
    ensures WellFormed(Parameter(x)) && WellFormed(Parameter(y))
  {
    LeafTexts(Parameter(x), d, 0);
    LeafTexts(Parameter(y), d, 1);
    LeafText(Parameter(x), d, 0);
    LeafText(Parameter(y), d, 0);
  }

  /** A name of at least one part is its quoted, dot-joined parts, binds nothing and compiles. */
  lemma {:induction false} IdentifierLeaf(names: seq<string>, d: Dialect)
    requires |names| > 0
    ensures TextAfter(Identifier(names), d, 0) == QuotedPath(names, d.quote)
    ensures Params(Identifier(names)) == [] && WellFormed(Identifier(names))
  {
    LeafTexts(Identifier(names), d, 0);
    LeafText(Identifier(names), d, 0);
  }

  /** `sql.id(...names)` before `between`: the names quoted and dot-joined, then the two placeholders. */
  lemma {:induction false} IdConditionText(names: seq<string>, d: Dialect)
    requires |names| > 0
    ensures TextAfter(ColumnBetween(IdOf(names)), d, 0)
         == QuotedPath(names, d.quote) + (" between " + Placeholder(d.placeholders, 1) + (" and " + Placeholder(d.placeholders, 2)))
  {
    IdentifierLeaf(names, d);
    ColumnBetweenNodes(IdOf(names));
    ColumnThenValuesText(Identifier(names), d, QuotedPath(names, d.quote));
  }

  /** `sql.id(...names)` before `between` binds `A`, then `B`. */
  lemma {:induction false} IdConditionShape(names: seq<string>)
    requires |names| > 0
    ensures Params(ColumnBetween(IdOf(names))) == [Str("A"), Str("B")]
    ensures WellFormed(ColumnBetween(IdOf(names)))
  {
    IdentifierLeaf(names, Postgres);
    ColumnBetweenNodes(IdOf(names));
    ColumnThenValuesShape(Identifier(names));
  }

  /** The test's statement in every dialect: the table, then the quoted name and the placeholders. */
  lemma {:induction false} IdBetween(names: seq<string>, d: Dialect)
    requires |names| > 0
    ensures Compile(SelectAllWhere("person", ColumnBetween(IdOf(names))), d)
         == Success(CompiledQuery("select * from " + QuoteIdent("person", d.quote)
                                  + (" where " + (QuotedPath(names, d.quote)
                                                  + (" between " + Placeholder(d.placeholders, 1)
                                                     + (" and " + Placeholder(d.placeholders, 2))))),
                                  [Str("A"), Str("B")]))
  {
    IdConditionText(names, d);
    IdConditionShape(names);
    WhereOf("person", ColumnBetween(IdOf(names)), d,
            QuotedPath(names, d.quote) + (" between " + Placeholder(d.placeholders, 1) + (" and " + Placeholder(d.placeholders, 2))),
            [Str("A"), Str("B")]);
  }

  /**
   * `sql.ref` of a dotted path is `sql.id` of the path's parts: the two
   * conditions are the same fragment whenever no part holds a dot.
   */
  lemma {:induction false} RefLikeId(parts: seq<string>)
    requires |parts| >= 1
    requires forall i :: 0 <= i < |parts| ==> '.' !in parts[i]
    ensures ColumnBetween(RefOf(Intercalate(parts, "."))) == ColumnBetween(IdOf(parts))
  {
    RefMatchesId(parts);
    ColumnBetweenNodes(RefOf(Intercalate(parts, ".")));
    ColumnBetweenNodes(IdOf(parts));
  }

  /* ---------- sql.table and .as ---------- */

  /** `sql`${sql.table(path)}`.as('person')`. */
  function TableAliased(path: string): Node
  {
    As(Build(["", ""], [TableOf(path)]).value, "person")
  }

  /** A table path compiles to its quoted parts, then ` as ` and the quoted alias; it binds nothing. */
  lemma {:induction false} TableFrom(path: string, d: Dialect)
    ensures Compile(SelectAllFrom(TableAliased(path)), d)
         == Success(CompiledQuery("select * from " + (QuotedPath(Split(path, '.'), d.quote) + " as " + QuoteIdent("person", d.quote)),
                                  []))
  {
    var table := TableOf(path);
    var t := Classify(table);
    var fragment := Build(["", ""], [table]).value;
    BuildIsInterposed(["", ""], [table]);
    assert ClassifyAll([table]) == [t];
    AroundOne("", "", t, d, 0);
    SubstitutionText(table, d, 0);
    ClassifyParams(table);
    SubstitutionWellFormed(table);
    assert "" + TextAfter(t, d, 0) + "" == TextAfter(t, d, 0);
    AliasText(fragment, "person", d, 0);
    FromCompiles(TableAliased(path), d);
  }

  /* ---------- sql.join ---------- */

  /** `sql`first_name in (${sql.join(values, separator)})``. */
  function JoinIn(values: seq<Value>, separator: Option<Node>): Node
  {
    Build(["first_name in (", ")"], [JoinOf(values, separator)]).value
  }

  /** The condition with the join's node in place. */
  lemma {:induction false} JoinInNodes(values: seq<Value>, separator: Option<Node>)
    ensures JoinIn(values, separator)
         == Sequence(Interpose(["first_name in (", ")"], [Joined(JoinItems(values), separator.GetOr(DefaultSeparator))]))
  {
    var join := JoinOf(values, separator);
    BuildIsInterposed(["first_name in (", ")"], [join]);
    assert ClassifyAll([join]) == [Classify(join)];
  }

  /**
   * A join with a separator that binds nothing: one placeholder per value,
   * numbered from 1, with the separator's text between consecutive ones.
   */
  lemma {:induction false} JoinConditionText(values: seq<Value>, separator: Option<Node>, d: Dialect)
    requires Params(separator.GetOr(DefaultSeparator)) == []
    ensures TextAfter(JoinIn(values, separator), d, 0)
         == "first_name in ("
            + Intercalate(Placeholders(d.placeholders, 1, |values|), TextAfter(separator.GetOr(DefaultSeparator), d, 0))
            + ")"
  {
    var sep := separator.GetOr(DefaultSeparator);
    var j := Joined(JoinItems(values), sep);
    JoinText(values, sep, d, 0);
    AroundOneWith("first_name in (", ")", j, d,
                  Intercalate(Placeholders(d.placeholders, 1, |values|), TextAfter(sep, d, 0)));
    JoinInNodes(values, separator);
  }

  /** The join binds the values in list order and compiles when its separator would be. */
  lemma {:induction false} JoinConditionShape(values: seq<Value>, separator: Option<Node>)
    requires Params(separator.GetOr(DefaultSeparator)) == []
    requires |values| <= 1 || WellFormed(separator.GetOr(DefaultSeparator))
    ensures Params(JoinIn(values, separator)) == values
    ensures WellFormed(JoinIn(values, separator))
  {
    var sep := separator.GetOr(DefaultSeparator);
    JoinInNodes(values, separator);
    AroundOne("first_name in (", ")", Joined(JoinItems(values), sep), Postgres, 0);
    JoinBindsItsList(values, sep);
    JoinWellFormed(values, sep);
  }

  /** The test's statement in every dialect: the table, then the list of placeholders in parentheses. */
  lemma {:induction false} JoinInText(values: seq<Value>, separator: Option<Node>, d: Dialect)
    requires Params(separator.GetOr(DefaultSeparator)) == []
    requires |values| <= 1 || WellFormed(separator.GetOr(DefaultSeparator))
    ensures Compile(SelectAllWhere("person", JoinIn(values, separator)), d)
         == Success(CompiledQuery("select * from " + QuoteIdent("person", d.quote)
                                  + (" where " + ("first_name in ("
                                                  + Intercalate(Placeholders(d.placeholders, 1, |values|),
                                                                TextAfter(separator.GetOr(DefaultSeparator), d, 0))
                                                  + ")")),
                                  values))
  {
    JoinConditionText(values, separator, d);
    JoinConditionShape(values, separator);
    WhereOf("person", JoinIn(values, separator), d,
            "first_name in ("
            + Intercalate(Placeholders(d.placeholders, 1, |values|), TextAfter(separator.GetOr(DefaultSeparator), d, 0))
            + ")",
            values);
  }

  /* ---------- the expected statements, dialect by dialect ---------- */

  /** `sql.literal('A')` is spelled `'A'`, and `sql.literal('B')` is spelled `'B'`. */
  lemma {:induction false} LiteralSpellings()
    ensures LiteralText(Str("A")) == "'A'" && LiteralText(Str("B")) == "'B'"
  {
    assert EscapeQuotes("A") == "A" by { assert "A"[1..] == ""; }
    assert EscapeQuotes("B") == "B" by { assert "B"[1..] == ""; }
  }

  /** For PostgreSQL: `select * from \"person\" where first_name between $1 and $2`, binding `A` and `B`. */
  lemma {:induction false} ParametersByDefaultPostgres()
    ensures Compile(SelectAllWhere("person", BetweenValues()), Postgres)
         == Success(CompiledQuery("select * from " + "\"person\"" + (" where " + ("first_name between " + "$1" + (" and " + "$2"))),
                                  [Str("A"), Str("B")]))
  {
    ParametersByDefault(Postgres);
    DialectSpellings();
  }

  /** For MySQL: `select * from `person` where first_name between ? and ?`, binding `A` and `B`. */
  lemma {:induction false} ParametersByDefaultMySql()
    ensures Compile(SelectAllWhere("person", BetweenValues()), MySql)
         == Success(CompiledQuery("select * from " + "`person`" + (" where " + ("first_name between " + "?" + (" and " + "?"))),
                                  [Str("A"), Str("B")]))
  {
    ParametersByDefault(MySql);
    DialectSpellings();
  }

  /** For SQLite: `select * from \"person\" where first_name between ? and ?`, binding `A` and `B`. */
  lemma {:induction false} ParametersByDefaultSqlite()
    ensures Compile(SelectAllWhere("person", BetweenValues()), Sqlite)
         == Success(CompiledQuery("select * from " + "\"person\"" + (" where " + ("first_name between " + "?" + (" and " + "?"))),
                                  [Str("A"), Str("B")]))
  {
    ParametersByDefault(Sqlite);
    DialectSpellings();
  }

  /** The quoted names and paths of the tests. */
  lemma NameSpellings()
    ensures QuotedPath(["first_name"], Postgres.quote) == "\"first_name\""
    ensures QuotedPath(["first_name"], MySql.quote) == "`first_name`"
    ensures QuotedPath(["first_name"], Sqlite.quote) == "\"first_name\""
    ensures QuotedPath(["person"], Postgres.quote) == "\"person\""
    ensures QuotedPath(["person"], MySql.quote) == "`person`"
    ensures QuotedPath(["person"], Sqlite.quote) == "\"person\""
  {
  }

  /** The quoted column path of the PostgreSQL-only `sql.id` and `sql.ref` tests. */
  lemma {:induction false} ColumnPathSpelling()
    ensures QuotedPath(["public", "person", "first_name"], Postgres.quote) == "\"public\".\"person\".\"first_name\""
  {
    assert ["public", "person", "first_name"][1..] == ["person", "first_name"];
    assert ["person", "first_name"][1..] == ["first_name"];
  }

  /** The quoted table path of the PostgreSQL-only `sql.table` test. */
  lemma {:induction false} TablePathSpelling()
    ensures QuotedPath(["public", "person"], Postgres.quote) == "\"public\".\"person\""
  {
    assert ["public", "person"][1..] == ["person"];
  }

  /** The dotted path of the PostgreSQL-only `sql.ref` test. */
  lemma {:induction false} ColumnPathDotted()
    ensures Intercalate(["public", "person", "first_name"], ".") == "public.person.first_name"
  {
    var parts := ["public", "person", "first_name"];
    assert parts[1..] == ["person", "first_name"] && parts[1..][1..] == ["first_name"];
  }

  /** For PostgreSQL: `select * from \"person\" where first_name between 'A' and 'B'`, binding nothing. */
  lemma {:induction false} LiteralsInlinePostgres()
    ensures Compile(SelectAllWhere("person", BetweenLiterals()), Postgres)
         == Success(CompiledQuery("select * from " + "\"person\"" + (" where " + ("first_name between " + "'A'" + (" and " + "'B'"))),
                                  []))
  {
    LiteralsInline(Postgres);
    DialectSpellings();
    LiteralSpellings();
  }

  /** For MySQL: `select * from `person` where first_name between 'A' and 'B'`, binding nothing. */
  lemma {:induction false} LiteralsInlineMySql()
    ensures Compile(SelectAllWhere("person", BetweenLiterals()), MySql)
         == Success(CompiledQuery("select * from " + "`person`" + (" where " + ("first_name between " + "'A'" + (" and " + "'B'"))),
                                  []))
  {
    LiteralsInline(MySql);
    DialectSpellings();
    LiteralSpellings();
  }

  /** For SQLite: `select * from \"person\" where first_name between 'A' and 'B'`, binding nothing. */
  lemma {:induction false} LiteralsInlineSqlite()
    ensures Compile(SelectAllWhere("person", BetweenLiterals()), Sqlite)
         == Success(CompiledQuery("select * from " + "\"person\"" + (" where " + ("first_name between " + "'A'" + (" and " + "'B'"))),
                                  []))
  {
    LiteralsInline(Sqlite);
    DialectSpellings();
    LiteralSpellings();
  }

  /** For PostgreSQL: `sql.id('first_name')` gives `select * from \"person\" where \"first_name\" between $1 and $2`. */
  lemma {:induction false} IdBetweenPostgres()
    ensures Compile(SelectAllWhere("person", ColumnBetween(IdOf(["first_name"]))), Postgres)
         == Success(CompiledQuery("select * from " + "\"person\"" + (" where " + ("\"first_name\"" + (" between " + "$1" + (" and " + "$2")))),
                                  [Str("A"), Str("B")]))
  {
    IdBetween(["first_name"], Postgres);
    DialectSpellings();
    NameSpellings();
  }

  /** For MySQL: `sql.id('first_name')` gives `select * from `person` where `first_name` between ? and ?`. */
  lemma {:induction false} IdBetweenMySql()
    ensures Compile(SelectAllWhere("person", ColumnBetween(IdOf(["first_name"]))), MySql)
         == Success(CompiledQuery("select * from " + "`person`" + (" where " + ("`first_name`" + (" between " + "?" + (" and " + "?")))),
                                  [Str("A"), Str("B")]))
  {
    IdBetween(["first_name"], MySql);
    DialectSpellings();
    NameSpellings();
  }

  /** For SQLite: `sql.id('first_name')` gives `select * from \"person\" where \"first_name\" between ? and ?`. */
  lemma {:induction false} IdBetweenSqlite()
    ensures Compile(SelectAllWhere("person", ColumnBetween(IdOf(["first_name"]))), Sqlite)
         == Success(CompiledQuery("select * from " + "\"person\"" + (" where " + ("\"first_name\"" + (" between " + "?" + (" and " + "?")))),
                                  [Str("A"), Str("B")]))
  {
    IdBetween(["first_name"], Sqlite);
    DialectSpellings();
    NameSpellings();
  }

  /** For PostgreSQL: `sql.id('public', 'person', 'first_name')` quotes each part and joins them with dots. */
  lemma {:induction false} IdPathPostgres()
    ensures Compile(SelectAllWhere("person", ColumnBetween(IdOf(["public", "person", "first_name"]))), Postgres)
         == Success(CompiledQuery("select * from " + "\"person\""
                                  + (" where " + ("\"public\".\"person\".\"first_name\"" + (" between " + "$1" + (" and " + "$2")))),
                                  [Str("A"), Str("B")]))
  {
    IdBetween(["public", "person", "first_name"], Postgres);
    DialectSpellings();
    ColumnPathSpelling();
  }

  /** `sql.ref('first_name')` is the same fragment as `sql.id('first_name')`. */
  lemma {:induction false} RefIsId()
    ensures ColumnBetween(RefOf("first_name")) == ColumnBetween(IdOf(["first_name"]))
  {
    assert Intercalate(["first_name"], ".") == "first_name";
    RefLikeId(["first_name"]);
  }

  /** For PostgreSQL: `sql.ref('first_name')` gives `select * from \"person\" where \"first_name\" between $1 and $2`. */
  lemma {:induction false} RefBetweenPostgres()
    ensures Compile(SelectAllWhere("person", ColumnBetween(RefOf("first_name"))), Postgres)
         == Success(CompiledQuery("select * from " + "\"person\"" + (" where " + ("\"first_name\"" + (" between " + "$1" + (" and " + "$2")))),
                                  [Str("A"), Str("B")]))
  {
    RefIsId();
    IdBetweenPostgres();
  }

  /** For MySQL: `sql.ref('first_name')` gives `select * from `person` where `first_name` between ? and ?`. */
  lemma {:induction false} RefBetweenMySql()
    ensures Compile(SelectAllWhere("person", ColumnBetween(RefOf("first_name"))), MySql)
         == Success(CompiledQuery("select * from " + "`person`" + (" where " + ("`first_name`" + (" between " + "?" + (" and " + "?")))),
                                  [Str("A"), Str("B")]))
  {
    RefIsId();
    IdBetweenMySql();
  }

  /** For SQLite: `sql.ref('first_name')` gives `select * from \"person\" where \"first_name\" between ? and ?`. */
  lemma {:induction false} RefBetweenSqlite()
    ensures Compile(SelectAllWhere("person", ColumnBetween(RefOf("first_name"))), Sqlite)
         == Success(CompiledQuery("select * from " + "\"person\"" + (" where " + ("\"first_name\"" + (" between " + "?" + (" and " + "?")))),
                                  [Str("A"), Str("B")]))
  {
    RefIsId();
    IdBetweenSqlite();
  }

  /** For PostgreSQL: `sql.ref('public.person.first_name')` splits its path at the dots, like `sql.id` of the parts. */
  lemma {:induction false} RefPathPostgres()
    ensures Compile(SelectAllWhere("person", ColumnBetween(RefOf("public.person.first_name"))), Postgres)
         == Success(CompiledQuery("select * from " + "\"person\""
                                  + (" where " + ("\"public\".\"person\".\"first_name\"" + (" between " + "$1" + (" and " + "$2")))),
                                  [Str("A"), Str("B")]))
  {
    var parts := ["public", "person", "first_name"];
    ColumnPathDotted();
    RefLikeId(parts);
    IdPathPostgres();
  }

  /** For PostgreSQL: `sql.table('person')` aliased as `person` gives `select * from \"person\" as \"person\"`. */
  lemma {:induction false} TableFromPostgres()
    ensures Compile(SelectAllFrom(TableAliased("person")), Postgres)
         == Success(CompiledQuery("select * from " + ("\"person\"" + " as " + "\"person\""), []))
  {
    SplitWithoutSeparator("person", '.');
    TableFrom("person", Postgres);
    DialectSpellings();
    NameSpellings();
  }

  /** For MySQL: `sql.table('person')` aliased as `person` gives `select * from `person` as `person``. */
  lemma {:induction false} TableFromMySql()
    ensures Compile(SelectAllFrom(TableAliased("person")), MySql)
         == Success(CompiledQuery("select * from " + ("`person`" + " as " + "`person`"), []))
  {
    SplitWithoutSeparator("person", '.');
    TableFrom("person", MySql);
    DialectSpellings();
    NameSpellings();
  }

  /** For SQLite: `sql.table('person')` aliased as `person` gives `select * from \"person\" as \"person\"`. */
  lemma {:induction false} TableFromSqlite()
    ensures Compile(SelectAllFrom(TableAliased("person")), Sqlite)
         == Success(CompiledQuery("select * from " + ("\"person\"" + " as " + "\"person\""), []))
  {
    SplitWithoutSeparator("person", '.');
    TableFrom("person", Sqlite);
    DialectSpellings();
    NameSpellings();
  }

  /** For PostgreSQL: `sql.table('public.person')` quotes the schema and the table apart. */
  lemma {:induction false} TablePathPostgres()
    ensures Compile(SelectAllFrom(TableAliased("public.person")), Postgres)
         == Success(CompiledQuery("select * from " + ("\"public\".\"person\"" + " as " + "\"person\""), []))
  {
    var parts := ["public", "person"];
    assert Intercalate(parts, ".") == "public.person" by {
      assert parts[1..] == ["person"];
    }
    IntercalateThenSplit(parts, '.');
    TableFrom("public.person", Postgres);
    DialectSpellings();
    TablePathSpelling();
  }

  /** The default separator of `sql.join` is `, `; it binds nothing and compiles. */
  lemma {:induction false} DefaultSeparatorText(d: Dialect)
    ensures TextAfter(DefaultSeparator, d, 0) == ", "
    ensures Params(DefaultSeparator) == [] && WellFormed(DefaultSeparator)
  {
    LeafTexts(Text(", "), d, 0);
    LeafText(Text(", "), d, 0);
  }

  /** `sql`::varchar,``, the separator of the last test. */
  function CastSeparator(): Node
  {
    Build(["::varchar,"], []).value
  }

  /** The cast separator compiles to its text, binds nothing and compiles. */
  lemma {:induction false} CastSeparatorText(d: Dialect)
    ensures TextAfter(CastSeparator(), d, 0) == "::varchar,"
    ensures Params(CastSeparator()) == [] && WellFormed(CastSeparator())
  {
    BuildIsInterposed(["::varchar,"], []);
    assert Interpose(["::varchar,"], ClassifyAll([])) == [Text("::varchar,")];
    SingletonStep(Text("::varchar,"), d, 0);
    LeafTexts(Text("::varchar,"), d, 0);
    LeafText(Text("::varchar,"), d, 0);
  }

  /** Two placeholders from 1 joined with `s`. */
  lemma {:induction false} TwoPlaceholders(style: PlaceholderStyle, s: string)
    ensures Intercalate(Placeholders(style, 1, 2), s) == Placeholder(style, 1) + s + Placeholder(style, 2)
  {
    var ps := Placeholders(style, 1, 2);
    assert ps[1..] == [Placeholder(style, 2)];
  }

  /** Three placeholders from 1 joined with `s`. */
  lemma {:induction false} ThreePlaceholders(style: PlaceholderStyle, s: string)
    ensures Intercalate(Placeholders(style, 1, 3), s)
         == Placeholder(style, 1) + s + (Placeholder(style, 2) + s + Placeholder(style, 3))
  {
    var ps := Placeholders(style, 1, 3);
    var rest := [Placeholder(style, 2), Placeholder(style, 3)];
    assert ps[0] == Placeholder(style, 1) && ps[1..] == rest;
    assert rest[1..] == [Placeholder(style, 3)];
    assert Intercalate(rest, s) == Placeholder(style, 2) + s + Placeholder(style, 3);
  }

  /** `['Jennifer', 'Arnold']`. */
  function TwoNames(): seq<Value>
  {
    [Str("Jennifer"), Str("Arnold")]
  }

  /** `['Jennifer', 'Arnold', 'Sylvester']`. */
  function ThreeNames(): seq<Value>
  {
    [Str("Jennifer"), Str("Arnold"), Str("Sylvester")]
  }

  /** For PostgreSQL: `sql.join(names)` gives `select * from \"person\" where first_name in ($1, $2)`, binding the names. */
  lemma {:induction false} JoinInPostgres()
    ensures Compile(SelectAllWhere("person", JoinIn(TwoNames(), None)), Postgres)
         == Success(CompiledQuery("select * from " + "\"person\"" + (" where " + ("first_name in (" + ("$1" + ", " + "$2") + ")")),
                                  TwoNames()))
  {
    DefaultSeparatorText(Postgres);
    JoinInText(TwoNames(), None, Postgres);
    TwoPlaceholders(Postgres.placeholders, ", ");
    DialectSpellings();
  }

  /** For MySQL: `sql.join(names)` gives `select * from `person` where first_name in (?, ?)`, binding the names. */
  lemma {:induction false} JoinInMySql()
    ensures Compile(SelectAllWhere("person", JoinIn(TwoNames(), None)), MySql)
         == Success(CompiledQuery("select * from " + "`person`" + (" where " + ("first_name in (" + ("?" + ", " + "?") + ")")),
                                  TwoNames()))
  {
    DefaultSeparatorText(MySql);
    JoinInText(TwoNames(), None, MySql);
    TwoPlaceholders(MySql.placeholders, ", ");
    DialectSpellings();
  }

  /** For SQLite: `sql.join(names)` gives `select * from \"person\" where first_name in (?, ?)`, binding the names. */
  lemma {:induction false} JoinInSqlite()
    ensures Compile(SelectAllWhere("person", JoinIn(TwoNames(), None)), Sqlite)
         == Success(CompiledQuery("select * from " + "\"person\"" + (" where " + ("first_name in (" + ("?" + ", " + "?") + ")")),
                                  TwoNames()))
  {
    DefaultSeparatorText(Sqlite);
    JoinInText(TwoNames(), None, Sqlite);
    TwoPlaceholders(Sqlite.placeholders, ", ");
    DialectSpellings();
  }

  /** For PostgreSQL: `sql.join(names, sql`::varchar,`)` puts the separator's text between the placeholders. */
  lemma {:induction false} JoinSeparatorPostgres()
    ensures Compile(SelectAllWhere("person", JoinIn(ThreeNames(), Some(CastSeparator()))), Postgres)
         == Success(CompiledQuery("select * from " + "\"person\""
                                  + (" where " + ("first_name in (" + ("$1" + "::varchar," + ("$2" + "::varchar," + "$3")) + ")")),
                                  ThreeNames()))
  {
    CastSeparatorText(Postgres);
    JoinInText(ThreeNames(), Some(CastSeparator()), Postgres);
    ThreePlaceholders(Postgres.placeholders, "::varchar,");
    DialectSpellings();
  }
}
