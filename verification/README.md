# kysely raw SQL fragments, modelled in Dafny

This project models the raw-SQL fragment layer of kysely and the way its
three built-in dialects compile a fragment. The model states the behaviour
that `test/node/src/raw-sql.test.ts` pins down.

- **The `sql` tag and its helpers** (`builder.dfy`). A template is text
  segments with substitutions between them. A bare value becomes a
  `Parameter`. `sql.literal` becomes a `Literal`. `sql.id(...names)` becomes
  an `Identifier` with those parts. `sql.ref(path)` becomes an `Identifier`
  whose parts are the path split at every `.`. `sql.table(path)` becomes a
  `TableRef` split the same way. `sql.join(values, separator?)` becomes a
  `Joined` list of parameters. A nested fragment is spliced in as it is.
  `fragment.as(alias)` appends ` as ` and the alias as a one-part name.
- **The node tree** (`nodes.dfy`). Its reference meaning is its leaves in
  depth-first, left-to-right order. A join visits its separator's leaves
  between every two items.
- **The compiler** (`compiler.dfy`). It walks the tree, threads the
  placeholder count and emits text chunks and numbered slots. It then
  spells the slots in the dialect's placeholder style.
  - PostgreSQL quotes names with `"` and numbers its markers `$1`, `$2`, ….
  - MySQL quotes with a backtick and writes `?`.
  - SQLite quotes with `"` and writes `?`.

  Compiling fails only for a visited name with no parts.
- **Composition** (`composition.dfy`, `splicing.dfy`, `templates.dfy`). The
  text and parameters of a whole template follow from those of its parts.
- **The tests' statements** (`scenarios.dfy`). The query builder's
  `selectFrom('person').selectAll().where(condition)` is modelled as the
  fixed text `select * from `, the quoted table, ` where ` and the
  condition. `selectFrom(fragment).selectAll()` is modelled as
  `select * from ` followed by the fragment.
  - Each test case is stated once for any dialect, and again for each dialect
    against the SQL text and parameters the test expects.
  - In the per-dialect lemmas the expected text is written as the
    concatenation of its pieces: the test's string cut where a substitution
    or the table name sits. For example, `"select * from " + "\"person\"" +
    (" where " + ("first_name between " + "$1" + (" and " + "$2")))` is
    `select * from "person" where first_name between $1 and $2`.

## Model

| member | source | states |
|---|---|---|
| Builder.Build | test/node/src/raw-sql.test.ts:40 | The `sql` tag succeeds exactly when there is one more text segment than substitutions. Its children alternate the segments' text with the classified substitutions, in template order. |
| Builder.ClassifyParams | test/node/src/raw-sql.test.ts:40-46 | What `Builder.Classify` makes of each substitution binds this. A bare value binds itself. A literal, name, reference or table binds nothing. A join whose separator binds nothing binds exactly its list. A nested fragment binds what it binds. |
| Builder.JoinBindsItsList | test/node/src/raw-sql.test.ts:232-246 | `sql.join(values)` binds exactly `values`, in list order, when its separator binds nothing. |
| Builder.JoinParams | test/node/src/raw-sql.test.ts:259-264 | A join binds its first value, then for each further value the separator's parameters followed by that value. An empty join binds nothing. |
| Builder.RefMatchesId | test/node/src/raw-sql.test.ts:136-180 | `sql.ref` of dot-joined parts is the same node as `sql.id` of those parts when no part holds a dot. |
| Builder.PathsKeepTheirText | test/node/src/raw-sql.test.ts:166-173 | Splitting a reference path loses nothing: its parts joined with `.` give the path back. A table path splits into the same parts as a reference. |
| Builder.JoinItems | test/node/src/raw-sql.test.ts:232 | `sql.join` turns its list into exactly one parameter node per value, in list order. |
| Builder.Interpose | test/node/src/raw-sql.test.ts:40 | A template's children are its text segments at the even positions and its substitutions at the odd ones, so text comes first and last and no two substitutions touch. |
| Strings.Split | test/node/src/raw-sql.test.ts:140-210 | Splitting a `sql.ref` or `sql.table` path always yields at least one part, and no part contains the dot. |
| Strings.IntercalateThenSplit | test/node/src/raw-sql.test.ts:166-173 | Splitting dot-free parts joined with `.` gives exactly those parts back. |
| Strings.SplitThenIntercalate | test/node/src/raw-sql.test.ts:166-167 | Joining the parts of a split with the same separator gives the original text. |
| Nodes.Interleave | test/node/src/raw-sql.test.ts:259-264 | A list of k > 0 items with a separator has 2k - 1 entries: the items at even positions and the separator at the k - 1 odd positions, so none follows the last item. |
| Nodes.JoinedIsInterleaved | test/node/src/raw-sql.test.ts:259-264 | A join visits the same leaves as the sequence that alternates its items with copies of its separator. |
| Compiler.Compile | test/node/src/raw-sql.test.ts:42-55 | Compiling succeeds exactly when every visited name has a part. The parameters are the tree's parameter values in pre-order. The SQL is a skeleton that depends only on the dialect's quote character, not its placeholder style, with the dialect's placeholders 1..n between its gaps. |
| Compiler.Skeleton | test/node/src/raw-sql.test.ts:44-52 | The text around the markers, which depends on the dialect's quote character but not its placeholder style, has exactly one more gap than the tree has parameters, so every bound value gets one marker. |
| Compiler.EmitIsFlat | test/node/src/raw-sql.test.ts:40 | The depth-first walk `Compiler.Emit` emits exactly what emitting the tree's leaves one after another emits. |
| Compiler.EmitParams | test/node/src/raw-sql.test.ts:45 | The walk binds the tree's parameter values in pre-order, whatever the quote and the starting count. |
| Compiler.EmitNumbered | test/node/src/raw-sql.test.ts:44 | The slots the walk emits are numbered next + 1, next + 2, … with no gap and no repeat, one per bound value. |
| Compiler.RenderIsAssembled | test/node/src/raw-sql.test.ts:44-52 | `Compiler.Render` spelling consecutively numbered slots gives the gaps with the dialect's placeholders from the first number between them. |
| Dialects.PlaceholderSpelling | test/node/src/raw-sql.test.ts:44-52 | The marker `Dialects.Placeholder` writes: a PostgreSQL marker is `$` followed by the decimal digits of its number. A MySQL or SQLite marker is `?` whatever its number. |
| Dialects.PositionalPlaceholdersDistinct | test/node/src/raw-sql.test.ts:44 | Numbered markers with different numbers are different text. |
| Strings.DecimalRoundTrip | test/node/src/raw-sql.test.ts:44 | The digits written for a marker number are decimal digits and read back as that number. |
| Dialects.QuotedPathRoundTrip | test/node/src/raw-sql.test.ts:125 | A path that `Dialects.QuotedPath` writes as quoted, dot-joined parts parses back into exactly its parts when no part holds the quote character. |
| Values.LiteralReadsBack | test/node/src/raw-sql.test.ts:70 | What `Values.LiteralText` writes reads back: an inline string literal parses back to the string. An integer's spelling denotes the integer, with a leading `-` when negative. |
| Strings.LiteralRoundTrip | test/node/src/raw-sql.test.ts:70 | A single-quoted literal with inner quotes doubled reads back as the original string. |
| Composition.CompileIsTextAfter | test/node/src/raw-sql.test.ts:42-55 | A well-formed fragment compiles to its text numbered from 1 and to its parameters. |
| Composition.SplitText | test/node/src/raw-sql.test.ts:40 | When a tree's leaves are those of a then b, its text is a's text followed by b's text numbered after a's parameters. |
| Composition.Concatenation | test/node/src/raw-sql.test.ts:40 | Two fragments side by side compile exactly when both do, to the concatenation of their SQL and of their parameters, when at most one binds or the markers are unnumbered. |
| Composition.SpliceIsTransparent | test/node/src/raw-sql.test.ts:186 | A fragment that is the only child of a sequence compiles exactly as it does on its own. |
| Composition.TextIgnoresStart | test/node/src/raw-sql.test.ts:90-104 | A fragment that binds nothing, or any fragment in a dialect with unnumbered markers, has the same text wherever the numbering starts. |
| Composition.DialectFree | test/node/src/raw-sql.test.ts:68-80 | A fragment that binds nothing and names nothing compiles to the same result in every dialect. |
| Composition.NameCompiles | test/node/src/raw-sql.test.ts:94 | A name compiles to its parts in the dialect's quotes joined with `.`, and binds nothing. A name with no parts is refused. |
| Composition.LiteralCompiles | test/node/src/raw-sql.test.ts:70 | A literal compiles to its inline spelling in every dialect and binds nothing. |
| Composition.ParameterCompiles | test/node/src/raw-sql.test.ts:44-45 | A lone value compiles to the dialect's first marker and binds the value. |
| Composition.TextCompiles | test/node/src/raw-sql.test.ts:40 | Template text compiles to itself in every dialect and binds nothing. |
| Splicing.InterposeText | test/node/src/raw-sql.test.ts:40 | Segments with nodes between them compile to the segments with the nodes' texts between them, each node numbered after the parameters of the nodes before it. |
| Templates.TemplateCompiles | test/node/src/raw-sql.test.ts:36-55 | A template compiles exactly when all its substitutions do. It compiles to its segments with the substitutions' texts between them, numbered from 1 across the template, and binds every substitution's parameters in template order. |
| Templates.TemplateShape | test/node/src/raw-sql.test.ts:45 | A template binds its substitutions' parameters in template order and is well formed exactly when each substitution is. |
| Templates.SubstitutionText | test/node/src/raw-sql.test.ts:40-264 | The text of the node `Builder.Classify` makes of each kind of substitution compiles to after k parameters. A bare value is marker k + 1. A literal is its inline spelling. A name is its quoted parts. A reference or table is the quoted parts of its dotted path. A join is its markers with the separator's text between them. A fragment is its own text. |
| Templates.SubstitutionWellFormed | test/node/src/raw-sql.test.ts:86-215 | Bare values, literals, references and tables always compile. A name compiles exactly when it has a part. A join compiles exactly when it has at most one value or its separator compiles. |
| Templates.JoinText | test/node/src/raw-sql.test.ts:232-264 | `sql.join` compiles to one marker per value, numbered on from k + 1, with the separator's text between consecutive markers and none after the last. |
| Templates.JoinWellFormed | test/node/src/raw-sql.test.ts:259 | The separator is visited only between items, so it decides whether the join compiles only when there are at least two values, whatever the separator binds. |
| Templates.TableMatchesRef | test/node/src/raw-sql.test.ts:184-215 | A table path and a reference with the same text compile to the same quoted path and bind nothing. |
| Templates.AliasText | test/node/src/raw-sql.test.ts:186 | `.as(alias)`, modelled by `Builder.As`, gives the fragment's text followed by ` as ` and the alias in the dialect's quotes. It binds what the fragment binds and compiles exactly when the fragment does. |
| Templates.AliasCompiles | test/node/src/raw-sql.test.ts:186-202 | An aliased fragment compiles exactly when the fragment does, to its SQL followed by ` as ` and the quoted alias, with the same parameters. |
| Scenarios.WhereCompiles | test/node/src/raw-sql.test.ts:37-40 | `select * from` a table `where` a condition compiles whenever the condition does. It gives the quoted table and the condition's text numbered from 1, and binds exactly the condition's parameters. |
| Scenarios.FromCompiles | test/node/src/raw-sql.test.ts:185-187 | `select * from` a fragment compiles whenever the fragment does, to the fragment's text after `select * from `. |
| Scenarios.BetweenOfText | test/node/src/raw-sql.test.ts:40 | In a two-substitution condition the second substitution is numbered after the first's parameters. |
| Scenarios.ParametersByDefault | test/node/src/raw-sql.test.ts:36-55 | In every dialect the two bare values become markers 1 and 2, and `A`, `B` are bound in that order. |
| Scenarios.ParametersByDefaultPostgres | test/node/src/raw-sql.test.ts:43-46 | PostgreSQL: `select * from "person" where first_name between $1 and $2`, parameters `A`, `B`. |
| Scenarios.ParametersByDefaultMySql | test/node/src/raw-sql.test.ts:47-50 | MySQL: ``select * from `person` where first_name between ? and ?``, parameters `A`, `B`. |
| Scenarios.ParametersByDefaultSqlite | test/node/src/raw-sql.test.ts:51-54 | SQLite: `select * from "person" where first_name between ? and ?`, parameters `A`, `B`. |
| Scenarios.LiteralsInline | test/node/src/raw-sql.test.ts:60-81 | In every dialect `sql.literal` values are written inline in their literal spelling and the statement binds nothing. |
| Scenarios.LiteralsInlinePostgres | test/node/src/raw-sql.test.ts:69-72 | PostgreSQL: `select * from "person" where first_name between 'A' and 'B'`, no parameters. |
| Scenarios.LiteralsInlineMySql | test/node/src/raw-sql.test.ts:73-76 | MySQL: ``select * from `person` where first_name between 'A' and 'B'``, no parameters. |
| Scenarios.LiteralsInlineSqlite | test/node/src/raw-sql.test.ts:77-80 | SQLite: `select * from "person" where first_name between 'A' and 'B'`, no parameters. |
| Scenarios.ColumnThenValuesText | test/node/src/raw-sql.test.ts:90-104 | A column that binds nothing takes no marker number: the values after it are still markers 1 and 2. |
| Scenarios.IdBetween | test/node/src/raw-sql.test.ts:86-105 | In every dialect `sql.id(...names)` gives the names quoted and dot-joined, then markers 1 and 2, binding `A`, `B`. |
| Scenarios.IdBetweenPostgres | test/node/src/raw-sql.test.ts:93-96 | PostgreSQL: `select * from "person" where "first_name" between $1 and $2`. |
| Scenarios.IdBetweenMySql | test/node/src/raw-sql.test.ts:97-100 | MySQL: ``select * from `person` where `first_name` between ? and ?``. |
| Scenarios.IdBetweenSqlite | test/node/src/raw-sql.test.ts:101-104 | SQLite: `select * from "person" where "first_name" between ? and ?`. |
| Scenarios.IdPathPostgres | test/node/src/raw-sql.test.ts:111-127 | PostgreSQL: `sql.id('public', 'person', 'first_name')` gives `"public"."person"."first_name"` before the markers. |
| Scenarios.RefLikeId | test/node/src/raw-sql.test.ts:136-180 | A `sql.ref` condition on a dotted path is the same fragment as the `sql.id` condition on its parts. |
| Scenarios.RefBetweenPostgres | test/node/src/raw-sql.test.ts:143-146 | PostgreSQL: `sql.ref('first_name')` gives `select * from "person" where "first_name" between $1 and $2`. |
| Scenarios.RefBetweenMySql | test/node/src/raw-sql.test.ts:147-150 | MySQL: ``select * from `person` where `first_name` between ? and ?``. |
| Scenarios.RefBetweenSqlite | test/node/src/raw-sql.test.ts:151-154 | SQLite: `select * from "person" where "first_name" between ? and ?`. |
| Scenarios.RefPathPostgres | test/node/src/raw-sql.test.ts:161-175 | PostgreSQL: `sql.ref('public.person.first_name')` gives `"public"."person"."first_name"` before the markers. |
| Scenarios.TableFrom | test/node/src/raw-sql.test.ts:184-202 | In every dialect an aliased `sql.table(path)` gives the path's quoted parts, then ` as ` and the quoted alias, and binds nothing. |
| Scenarios.TableFromPostgres | test/node/src/raw-sql.test.ts:190-193 | PostgreSQL: `select * from "person" as "person"`, no parameters. |
| Scenarios.TableFromMySql | test/node/src/raw-sql.test.ts:194-197 | MySQL: ``select * from `person` as `person` ``, no parameters. |
| Scenarios.TableFromSqlite | test/node/src/raw-sql.test.ts:198-201 | SQLite: `select * from "person" as "person"`, no parameters. |
| Scenarios.TablePathPostgres | test/node/src/raw-sql.test.ts:208-217 | PostgreSQL: `sql.table('public.person')` gives `select * from "public"."person" as "person"`. |
| Scenarios.JoinInText | test/node/src/raw-sql.test.ts:226-247 | In every dialect a join gives one marker per value from 1, separated by the separator's text, and binds the values in list order. |
| Scenarios.JoinInPostgres | test/node/src/raw-sql.test.ts:235-238 | PostgreSQL: `select * from "person" where first_name in ($1, $2)`, parameters `Jennifer`, `Arnold`. |
| Scenarios.JoinInMySql | test/node/src/raw-sql.test.ts:239-242 | MySQL: ``select * from `person` where first_name in (?, ?)``, parameters `Jennifer`, `Arnold`. |
| Scenarios.JoinInSqlite | test/node/src/raw-sql.test.ts:243-246 | SQLite: `select * from "person" where first_name in (?, ?)`, parameters `Jennifer`, `Arnold`. |
| Scenarios.JoinSeparatorPostgres | test/node/src/raw-sql.test.ts:253-265 | PostgreSQL with separator `::varchar,`: `select * from "person" where first_name in ($1::varchar,$2::varchar,$3)`, parameters the three names. |

## Left out

- Running queries and the test harness (`initTest`, `insertDefaultDataSet`, `clearDatabase`, `destroyTest`, `query.execute()`): these are I/O against live databases.
- The fluent query builder (`selectFrom`, `selectAll`, `where`): it is modelled only as the fixed `select * from … where …` text around a fragment, because how it builds its own nodes is not part of this model.
- The `NOT_SUPPORTED` markers for MySQL and SQLite: they skip a test and are not an asserted compiler error. The model compiles multi-part names in every dialect.
- Doubling of single quotes inside inline string literals, and the spelling of integer, boolean and null literals, are assumptions. The tests only inline the strings `A` and `B`.
- `sql.ref` and `sql.table` split at every dot and keep every part. No limit on the number of parts is modelled, because the tests only use paths of up to three parts.
- Dialects.QuoteIdent: a quote character inside a name part is written unescaped, so a part holding the quote can read as two names. The tests use only plain names, and no escaping rule for names is modelled. `Dialects.QuotedPathRoundTrip` therefore requires quote-free parts.
- JavaScript values other than strings, integers, booleans and null (floats, dates, buffers, objects) are not modelled.
- TypeScript type inference and async plumbing are not modelled.
- Templates.JoinText: stated only for a separator that binds nothing. A separator that binds values is allowed by `Builder.JoinParams` but its text is not worked out.
- Templates.SubstitutionText: the join case is stated only for a separator that binds nothing, for the same reason.
- Scenarios.JoinInText: requires a separator that binds nothing, for the same reason.
- The second test is titled after `sql.unsafeLiteral` but calls `sql.literal`. The model follows the call.
