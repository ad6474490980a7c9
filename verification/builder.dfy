/**
 * The fragment builder: the `sql` template tag and its helpers `sql.literal`,
 * `sql.id`, `sql.ref`, `sql.table` and `sql.join`, which turn interleaved
 * text segments and tagged substitutions into a node tree, and `.as`, which
 * gives a fragment an alias.
 */
module Builder {
  import opened Wrappers
  import opened Strings
  import opened Values
  import opened Nodes

  /** A substitution as the template receives it, tagged by the helper that made it. */
  datatype Substitution =
      /** A bare value: bound as a parameter. */
    | Plain(value: Value)
      /** `sql.literal(v)`: written inline. */
    | LiteralOf(value: Value)
      /** `sql.id(p1, ..., pn)`: one name whose parts are the arguments, never split further. */
    | IdOf(names: seq<string>)
      /** `sql.ref(path)`: a column reference given as one dotted string. */
    | RefOf(reference: string)
      /** `sql.table(path)`: a table path given as one dotted string. */
    | TableOf(table: string)
      /** `sql.join(values, separator)`: the values as parameters, separated by a fragment. */
    | JoinOf(values: seq<Value>, separator: Option<Node>)
      /** A fragment built earlier, spliced in as a subtree. */
    | Fragment(node: Node)

  datatype BuildError =
      /** The template does not have exactly one more text segment than substitutions. */
    | MalformedFragment

  /** The separator `sql.join` uses when none is given. */
  const DefaultSeparator: Node := Text(", ")

  /** The values of a join list, each as a parameter, in list order. */
  function JoinItems(vs: seq<Value>): (ps: seq<Node>)
    ensures |ps| == |vs|
    ensures forall i :: 0 <= i < |vs| ==> ps[i] == Parameter(vs[i])
  {
    if |vs| == 0 then [] else [Parameter(vs[0])] + JoinItems(vs[1..])
  }

  /** The node a substitution becomes. */
  function Classify(sub: Substitution): Node
  {
    match sub
    case Plain(v) => Parameter(v)
    case LiteralOf(v) => Literal(v)
    case IdOf(names) => Identifier(names)
    case RefOf(reference) => Identifier(Split(reference, '.'))
    case TableOf(table) => TableRef(Split(table, '.'))
    case JoinOf(vs, separator) => Joined(JoinItems(vs), separator.GetOr(DefaultSeparator))
    case Fragment(n) => n
  }

  /** The nodes the substitutions become, in template order. */
  function ClassifyAll(subs: seq<Substitution>): (ns: seq<Node>)
    ensures |ns| == |subs|
    ensures forall i :: 0 <= i < |subs| ==> ns[i] == Classify(subs[i])
  {
    seq(|subs|, i requires 0 <= i < |subs| => Classify(subs[i]))
  }

  /**
   * Text segments with nodes between them: the segments at the even
   * positions, the nodes at the odd ones, so text comes first and last.
   */
  function Interpose(segments: seq<string>, ns: seq<Node>): (cs: seq<Node>)
    requires |segments| == |ns| + 1
    ensures |cs| == 2 * |ns| + 1
    ensures forall j :: 0 <= j < |cs| && j % 2 == 0 ==> cs[j] == Text(segments[j / 2])
    ensures forall j :: 0 <= j < |cs| && j % 2 == 1 ==> cs[j] == ns[j / 2]
  {
    if |ns| == 0 then [Text(segments[0])]
    else
      var tail := Interpose(segments[1..], ns[1..]);
      var cs := [Text(segments[0]), ns[0]] + tail;
      assert forall j :: 2 <= j < |cs| ==> cs[j] == tail[j - 2];
      cs
  }

  /**
   * The children of a template: the text segments at the even positions, the
   * classified substitutions at the odd ones, so text comes first and last.
   */
  function Weave(segments: seq<string>, subs: seq<Substitution>): (cs: seq<Node>)
    requires |segments| == |subs| + 1
    ensures |cs| == 2 * |subs| + 1
    ensures forall j :: 0 <= j < |cs| && j % 2 == 0 ==> cs[j] == Text(segments[j / 2])
    ensures forall j :: 0 <= j < |cs| && j % 2 == 1 ==> cs[j] == Classify(subs[j / 2])
  {
    Interpose(segments, ClassifyAll(subs))
  }

  /**
   * The `sql` tag applied to a template: the segments and substitutions
   * woven into one sequence, or MalformedFragment when the counts do not
   * alternate.
   */
  function Build(segments: seq<string>, subs: seq<Substitution>): (r: Result<Node, BuildError>)
    ensures r.Success? <==> |segments| == |subs| + 1
    ensures r.Failure? ==> r.error == MalformedFragment
    ensures r.Success? ==> r.value.Sequence? && |r.value.children| == 2 * |subs| + 1
    ensures r.Success? ==> forall i :: 0 <= i < |subs| ==>
              r.value.children[2 * i] == Text(segments[i]) && r.value.children[2 * i + 1] == Classify(subs[i])
    ensures r.Success? ==> r.value.children[2 * |subs|] == Text(segments[|subs|])
  {
    if |segments| != |subs| + 1 then Failure(MalformedFragment)
    else
      var cs := Weave(segments, subs);
      assert forall i :: 0 <= i < |subs| ==> (2 * i) / 2 == i && (2 * i + 1) / 2 == i && (2 * i + 1) % 2 == 1;
      Success(Sequence(cs))
  }

  /** `fragment.as(alias)`: the fragment followed by ` as ` and the alias as a one-part name. */
  function As(fragment: Node, alias: string): Node
  {
    Sequence([fragment, Text(" as "), Identifier([alias])])
  }

  /**
   * The parameters a join binds: the first value, then for each further
   * value the separator's parameters followed by that value.
   */
  function SeparatedValues(vs: seq<Value>, between: seq<Value>): seq<Value>
  {
    if |vs| == 0 then [] else between + [vs[0]] + SeparatedValues(vs[1..], between)
  }

  /** A separator that binds nothing leaves a join binding exactly its values. */
  lemma {:induction false} SeparatedValuesWithoutBetween(vs: seq<Value>)
    ensures SeparatedValues(vs, []) == vs
  {
    if |vs| > 0 {
      SeparatedValuesWithoutBetween(vs[1..]);
      assert [vs[0]] + vs[1..] == vs;
    }
  }

  /** After its first item, a join visits the separator, the next value, and the rest in the same way. */
  lemma {:induction false} SeparatedLeaves(vs: seq<Value>, separator: Node)
    requires |vs| > 0
    ensures LeavesSeparated(JoinItems(vs), separator)
         == Leaves(separator) + ([Parameter(vs[0])] + LeavesSeparated(JoinItems(vs[1..]), separator))
  {
    var items := JoinItems(vs);
    assert items[0] == Parameter(vs[0]) && items[1..] == JoinItems(vs[1..]);
    assert Leaves(Parameter(vs[0])) == [Parameter(vs[0])];
  }

  /** For each value, the separator's leaves and then the value as a parameter. */
  function Interspersed(separatorLeaves: seq<Leaf>, vs: seq<Value>): seq<Leaf>
  {
    if |vs| == 0 then [] else separatorLeaves + ([Parameter(vs[0])] + Interspersed(separatorLeaves, vs[1..]))
  }

  /** After its first item, a join of values visits the separator's leaves before every further value. */
  lemma {:induction false} SeparatedIsInterspersed(vs: seq<Value>, separator: Node)
    ensures LeavesSeparated(JoinItems(vs), separator) == Interspersed(Leaves(separator), vs)
  {
    if |vs| > 0 {
      SeparatedLeaves(vs, separator);
      SeparatedIsInterspersed(vs[1..], separator);
    }
  }

  /** The leaves a join of values visits after its first item. */
  lemma {:induction false} SeparatedLeavesParams(vs: seq<Value>, separator: Node)
    ensures ParameterValues(LeavesSeparated(JoinItems(vs), separator)) == SeparatedValues(vs, Params(separator))
  {
    if |vs| > 0 {
      var items := JoinItems(vs);
      assert items[0] == Parameter(vs[0]) && items[1..] == JoinItems(vs[1..]);
      var ls := Leaves(separator);
      var rest := LeavesSeparated(JoinItems(vs[1..]), separator);
      assert Leaves(Parameter(vs[0])) == [Parameter(vs[0])];
      assert LeavesSeparated(items, separator) == ls + [Parameter(vs[0])] + rest;
      ParameterValuesAppend(ls + [Parameter(vs[0])], rest);
      ParameterValuesAppend(ls, [Parameter(vs[0])]);
      SeparatedLeavesParams(vs[1..], separator);
    }
  }

  /**
   * `sql.join` binds its values in list order with the separator's own
   * parameters between consecutive values.
   */
  lemma {:induction false} JoinParams(vs: seq<Value>, separator: Node)
    ensures |vs| > 0 ==> Params(Joined(JoinItems(vs), separator)) == [vs[0]] + SeparatedValues(vs[1..], Params(separator))
    ensures |vs| == 0 ==> Params(Joined(JoinItems(vs), separator)) == []
  {
    if |vs| == 0 {
      assert JoinItems(vs) == [];
    } else {
      var rest := LeavesSeparated(JoinItems(vs[1..]), separator);
      assert Params(Joined(JoinItems(vs), separator)) == [vs[0]] + ParameterValues(rest) by {
        JoinLeaves(vs, separator);
        ParameterValuesAppend([Parameter(vs[0])], rest);
      }
      SeparatedLeavesParams(vs[1..], separator);
    }
  }

  /** With a separator that binds nothing, `sql.join` binds exactly its list, in order. */
  lemma {:induction false} JoinBindsItsList(vs: seq<Value>, separator: Node)
    requires Params(separator) == []
    ensures Params(Joined(JoinItems(vs), separator)) == vs
  {
    JoinParams(vs, separator);
    if |vs| > 0 {
      JoinBindsItsListStep(vs, Params(separator), SeparatedValues(vs[1..], Params(separator)));
    }
  }

  lemma {:induction false} JoinBindsItsListStep(vs: seq<Value>, between: seq<Value>, rest: seq<Value>)
    requires |vs| > 0 && between == [] && rest == SeparatedValues(vs[1..], between)
    ensures [vs[0]] + rest == vs
  {
    SeparatedValuesWithoutBetween(vs[1..]);
    HeadThenTail(vs);
  }

  /** A join of values visits its first value, then the separator and the next value, and so on. */
  lemma {:induction false} JoinLeaves(vs: seq<Value>, separator: Node)
    requires |vs| > 0
    ensures Leaves(Joined(JoinItems(vs), separator))
         == [Parameter(vs[0])] + LeavesSeparated(JoinItems(vs[1..]), separator)
  {
    var items := JoinItems(vs);
    assert items[0] == Parameter(vs[0]) && items[1..] == JoinItems(vs[1..]);
    assert Leaves(Parameter(vs[0])) == [Parameter(vs[0])];
  }

  /**
   * What each kind of substitution binds: a bare value binds itself; a
   * literal, a name, a reference and a table bind nothing; a join binds its
   * values (with a separator that binds nothing); a fragment binds its own
   * parameters in their own order.
   */
  lemma {:induction false} ClassifyParams(sub: Substitution)
    ensures sub.Plain? ==> Params(Classify(sub)) == [sub.value]
    ensures sub.LiteralOf? || sub.IdOf? || sub.RefOf? || sub.TableOf? ==> Params(Classify(sub)) == []
    ensures sub.JoinOf? && Params(sub.separator.GetOr(DefaultSeparator)) == [] ==> Params(Classify(sub)) == sub.values
    ensures sub.Fragment? ==> Params(Classify(sub)) == Params(sub.node)
  {
    match sub
    case Plain(v) =>
      assert Leaves(Parameter(v)) == [Parameter(v)];
    case LiteralOf(v) =>
      assert Leaves(Literal(v)) == [Literal(v)];
    case IdOf(names) =>
      assert Leaves(Identifier(names)) == [Identifier(names)];
    case RefOf(reference) =>
      assert Leaves(Classify(sub)) == [Classify(sub)];
    case TableOf(table) =>
      assert Leaves(Classify(sub)) == [Classify(sub)];
    case JoinOf(vs, separator) =>
      if Params(separator.GetOr(DefaultSeparator)) == [] {
        JoinBindsItsList(vs, separator.GetOr(DefaultSeparator));
      }
    case Fragment(n) =>
  }

  /**
   * `sql.ref` of dot-joined parts is `sql.id` of those parts, provided no
   * part itself holds a dot; in particular a one-part reference is a one-part
   * name.
   */
  lemma {:induction false} RefMatchesId(parts: seq<string>)
    requires |parts| >= 1
    requires forall i :: 0 <= i < |parts| ==> '.' !in parts[i]
    ensures Classify(RefOf(Intercalate(parts, "."))) == Classify(IdOf(parts))
  {
    IntercalateThenSplit(parts, '.');
  }

  /**
   * Splitting a reference or a table path loses nothing: its parts joined
   * with dots give the path back, and a table path has the parts a reference
   * with the same text has.
   */
  lemma {:induction false} PathsKeepTheirText(path: string)
    ensures Intercalate(Classify(RefOf(path)).parts, ".") == path
    ensures Classify(TableOf(path)).parts == Classify(RefOf(path)).parts
    ensures |Classify(RefOf(path)).parts| >= 1
  {
    SplitThenIntercalate(path, '.');
  }
}
