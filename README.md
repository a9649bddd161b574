# RngSpec grammar loader and naming core, in Dafny

RngSpec reads a RELAX NG schema and derives C# types from it. This project
models the part of that code which does real work:

- **Identifier derivation** (`Element.ConvertCase`). An XML-case name such as
  `the-quick-brown` becomes the Pascal-case identifier `TheQuickBrown`.
  Characters that are neither letters nor digits are dropped. A letter is
  upper-cased when it is the first character or follows a non-letter, and a
  digit counts as a non-letter. A name that starts with a digit gets a leading `_`.
- **The candidate-name vote table** of every `Element` (`AddCandidateName`,
  `GetName`). It maps each name to its number of votes. `GetName` returns the
  name with the highest count, and among equal counts the name added first.
- **First-maximum selection** (`LinqExtensions.Max`). This is the loop behind
  `GetName`. It replaces the running maximum only when an element compares
  strictly greater.
- **Grammar loading** (the `Parser` constructor). The root must be `grammar`
  and must have a `start` child; the first `start` child is taken. The
  namespace declarations of the root fill the prefix map. Every `define`
  child is stored under its `name` attribute as an `XsElement` whose candidate
  table is `{"define": 1}`. A later define with the same name silently
  replaces an earlier one.
- **Enum literal numbering** (`EnumElement.Create`). The `value` children of a
  `choice` are taken in document order. The k-th one yields the literal
  `ConvertCase(text)` with ordinal k.

Layout, one module per concern:

- `chars.dfy` (`Chars`): letter and digit classification and upper-casing.
- `results.dfy` (`Results`): `Option`, the `Error` kinds, and `Result`. These replace the source's exceptions.
- `xml.dfy` (`Xml`): the document model. It is an abstract labelled tree whose names carry a namespace URI. The lookups `Element(name)`, `Elements(name)` and `Attribute(name)` are modelled with unqualified `XName`s, so they match only names without a namespace.
- `linq_extensions.dfy` (`LinqExtensions`): `Max` as a loop, its specification function `MaxIndex`, and the lemmas about them.
- `elements.dfy` (`SchemaElements`): `ConvertCase` as a loop, its position-wise specification `Identifier`, the `Element` class with its vote table, `XsElement`, and `EnumLiterals`.
- `grammar.dfy` (`Grammar`): the loader's outcome as a function `Load`, lemmas about it, and the class `Parser` whose `Create` method runs the constructor's loops.

In these ways the code differs from RELAX NG's `combine` rules and from what a
reader might expect, and the model follows the code:

- Repeated `define`s with the same name are not merged by their `combine`
  attribute and are not reported as duplicates. Each one overwrites the
  previous entry (`Grammar.DefineTableLastWins`).
- An XsElement's candidate name is the element's local name. For a define
  that is always `"define"`, not the define's `name` attribute.
- `ConvertCase` has no check for an empty name: it reads `xmlStr[0]`
  (RngSpec/Parser.cs:24) and throws. The model makes a non-empty name its
  precondition. `EnumLiterals` turns an empty value text
  into `Failure(EmptyName)`, the exception `Create` would raise.
- The documentation of `ConvertCase` promises a valid C# identifier
  (RngSpec/Parser.cs:19), but the escape at line 24 tests the input's first
  character, not the output's. A digit that follows a leading separator
  therefore starts the result unescaped: `-2a` becomes `2A`. A name without
  letters or digits becomes the empty string: `-` becomes `""` (and a
  `<value>-</value>` becomes the literal name `""`). The model computes
  both as the code does (`SchemaElements.LeadingSeparatorDigit`,
  `SchemaElements.NoLettersOrDigits`).

## Model

| member | source | states |
|---|---|---|
| `Chars.ToUpper` | RngSpec/Parser.cs:32 | upper-casing turns a lower-case letter into its own capital (`q` into `Q`), keeps letters letters, and leaves every other character unchanged |
| `Xml.FirstIndex` | RngSpec/Parser.cs:143 | the position of the first child with the given no-namespace name, with no such child before it; the child count when there is none |
| `Xml.FirstElement` | RngSpec/Parser.cs:143-144 | `Element(name)` is absent exactly when no child has that name; otherwise it is the child at the first such position |
| `Xml.Elements` | RngSpec/Parser.cs:145 | `Elements(name)` returns only children with that name, never more than there are children |
| `Xml.ElementsAppend` | RngSpec/Parser.cs:145 | `Elements(name)` keeps document order and multiplicity: on a concatenation of children it is the matches of the first part followed by those of the second |
| `Xml.ElementsSingleton` | RngSpec/Parser.cs:145 | a single child is kept exactly when it has the name |
| `Xml.ElementsMembers` | RngSpec/Parser.cs:145 | a node is in `Elements(name)` exactly when it is a child with that name |
| `Xml.AttributeValue` | RngSpec/Parser.cs:146 | `Attribute(name)` is absent exactly when no no-namespace attribute has that name; otherwise its value belongs to such an attribute |
| `LinqExtensions.MaxIndex` | RngSpec/LinqExtensions.cs:13-17 | the position Max selects lies inside the non-empty source |
| `LinqExtensions.Max` | RngSpec/LinqExtensions.cs:9-20 | on an empty source the result is `default(T)` and the comparison is never called; otherwise the result is the element at `MaxIndex`, the comparison is called once per element after the first, and each call compares that element with the maximum of the elements before it, never with `default(T)` |
| `LinqExtensions.LaterNeverGreater` | RngSpec/LinqExtensions.cs:15-16 | for any comparison, no element after the selected one compares strictly greater than it, so a later equal element never displaces it |
| `LinqExtensions.MaxIndexIsMaximal` | RngSpec/LinqExtensions.cs:15-16 | if the comparison is a total preorder, no element compares strictly greater than the result |
| `LinqExtensions.MaxIndexIsEarliest` | RngSpec/LinqExtensions.cs:15-16 | if the comparison is a total preorder, every element before the result compares strictly less, so the earliest maximal element wins |
| `LinqExtensions.MaxIndexUnique` | RngSpec/LinqExtensions.cs:13-19 | if the comparison is a total preorder, the only position that is maximal with every earlier element strictly less is `MaxIndex` (with the two lemmas above this is an if-and-only-if) |
| `SchemaElements.ScanIsConverted` | RngSpec/Parser.cs:23-44 | the loop's state after n characters is the escape followed by the position-wise text `Converted`, and its `cap` flag holds exactly when the n-th character is absent or not a letter |
| `SchemaElements.ConvertedLength` | RngSpec/Parser.cs:26-44 | the letters-and-digits part of the output has one character per letter or digit of the input |
| `SchemaElements.ConvertedIsAlnum` | RngSpec/Parser.cs:28-43 | apart from the escape, the output holds only letters and digits |
| `SchemaElements.ConvertedAt` | RngSpec/Parser.cs:23-43 | the letter or digit at position i appears at the output slot counted by the letters and digits before it; it is upper-cased exactly when it is a letter that starts the name or follows a non-letter (a digit included), and copied unchanged otherwise |
| `SchemaElements.IdentifierShape` | RngSpec/Parser.cs:22-45 | the identifier starts with `_` exactly when the name starts with a digit; every other character is a letter or digit; its length is the number of letters and digits plus one for the escape |
| `SchemaElements.PascalCaseExample` | RngSpec/Parser.cs:13-14 | `the-quick-brown` becomes `TheQuickBrown` |
| `SchemaElements.EscapeAndSeparatorExamples` | RngSpec/Parser.cs:15-16 | `2fast` becomes `_2Fast`, `a_b-c` becomes `ABC`, `a2b` becomes `A2B` |
| `SchemaElements.LeadingSeparatorDigit` | RngSpec/Parser.cs:19-24 | `-2a` becomes `2A`, an identifier that starts with a digit, because the escape tests only the input's first character |
| `SchemaElements.NoLettersOrDigits` | RngSpec/Parser.cs:19-45 | `-` becomes the empty string, so a name without letters or digits yields no identifier at all |
| `SchemaElements.Element.ConvertCase` | RngSpec/Parser.cs:20-46 | the loop over the characters, with its `StringBuilder` and `cap` flag, returns `Identifier(xmlStr)` for every non-empty name |
| `SchemaElements.Bump` | RngSpec/Parser.cs:50-56 | adding a vote keeps the table's size or grows it by one entry |
| `SchemaElements.BumpCounts` | RngSpec/Parser.cs:50-56 | adding a vote raises that name's count by exactly one, starting from 0 when the name is absent, and leaves every other count unchanged |
| `SchemaElements.BumpNames` | RngSpec/Parser.cs:52-55 | a known name keeps its place in the insertion order; a new name is appended at the end |
| `SchemaElements.BumpDistinct` | RngSpec/Parser.cs:52-55 | after an added vote, every name still occurs once in the table, as in a dictionary |
| `SchemaElements.BumpPositive` | RngSpec/Parser.cs:53-55 | after an added vote, every count is still at least 1 |
| `SchemaElements.CompareTo` | RngSpec/Parser.cs:60 | `Int32.CompareTo` is negative, zero or positive as the first count is smaller than, equal to or greater than the second |
| `SchemaElements.ByCount` | RngSpec/Parser.cs:60 | GetName's comparison says "greater" exactly when the first entry has the higher count |
| `SchemaElements.ByCountIsTotalPreorder` | RngSpec/Parser.cs:60 | GetName's comparison satisfies the total-preorder condition of the `Max` lemmas |
| `SchemaElements.GetNameExample` | RngSpec/Parser.cs:58-61 | for `item:3, entry:5, record:5` in that order, the entry `entry` is selected |
| `SchemaElements.Element.constructor` | RngSpec/Parser.cs:48 | a new element has an empty vote table |
| `SchemaElements.Element.AddCandidateName` | RngSpec/Parser.cs:50-56 | the new table is the old table with one vote added for the name, and names stay distinct with positive counts |
| `SchemaElements.Element.GetName` | RngSpec/Parser.cs:58-61 | on a non-empty table, the result is the name of an entry whose count is maximal, and every earlier entry has a strictly smaller count |
| `SchemaElements.XsElement.constructor` | RngSpec/Parser.cs:68-72 | a new XsElement's candidate table is exactly one vote for the element's local name, and it keeps the node |
| `SchemaElements.EnumLiterals` | RngSpec/Parser.cs:101-104 | the literals follow the `value` children in document order, the k-th named `ConvertCase` of its text with ordinal k; the only failure is an empty value text, reported as `EmptyName`; a non-empty text without letters or digits is not a failure and yields the literal name `""` |
| `Grammar.NamespaceMapKeys` | RngSpec/Parser.cs:141-142 | the prefix map's keys are exactly the local names of the root's namespace declarations |
| `Grammar.NamespaceMapLastWins` | RngSpec/Parser.cs:141-142 | a prefix maps to the value of its last declaration, so a later declaration of the same prefix overwrites an earlier one; well-formed XML forbids duplicate attributes, so this case arises only in the abstract tree, not in a real document |
| `Grammar.DefineTableFails` | RngSpec/Parser.cs:145-146 | the define table fails exactly when some define has no `name` attribute, and then with `DefineWithoutName` |
| `Grammar.DefineTableKeys` | RngSpec/Parser.cs:145-146 | the define table's keys are exactly the `name` attributes of the defines |
| `Grammar.DefineTableLastWins` | RngSpec/Parser.cs:145-146 | each name maps to the last define that carries it; there is no combine merging |
| `Grammar.DefineTableFailurePersists` | RngSpec/Parser.cs:145-146 | once a define without a name is met, loading aborts with that failure whatever follows |
| `Grammar.LoadFails` | RngSpec/Parser.cs:139-146 | loading fails with `NoGrammar` when the root is not a no-namespace `grammar` element, else with `NoStart` when there is no `start` child, else exactly when some `define` child has no `name`, and then with `DefineWithoutName`; there is no other failure |
| `Grammar.LoadSucceeds` | RngSpec/Parser.cs:139-146 | a successful load keeps the root, takes the first `start` child, has the declared prefixes as prefix-map keys, and has the defines' names as define-table keys |
| `Grammar.NamespacedRootRejected` | RngSpec/Parser.cs:139-140 | a root element in any namespace is rejected with `NoGrammar`, because the root is looked up by an unqualified name |
| `Grammar.Parser.Init` | RngSpec/Parser.cs:131-135 | the parser's four fields hold the given grammar, start node, define table and prefix map |
| `Grammar.Parser.Create` | RngSpec/Parser.cs:137-147 | the constructor's loops either fail for exactly the reason `Load` gives, or yield a parser holding `Load`'s root, start node and prefix map, plus one XsElement per define name; each XsElement holds `Load`'s node for that name and the candidate table `{"define": 1}`; every XsElement and its vote table is newly created, and no two names share a vote table |

The functions `Emitted`, `Converted`, `Escape`, `Identifier`, `Scan` and
`AlnumCount` (elements.dfy) are the specification of `ConvertCase`. `Count`
and `Names` are views of the vote table. `NamespaceMap`, `DeclaredName`,
`DefineTable` and `Load` (grammar.dfy) are the specification of the `Parser`
constructor. The lemmas above state what these functions mean.

## Left out

- File and XML input. `XDocument.Load(path)` and XML tokenising are not modelled. `Parser.Create` receives the document's root element as an abstract `Xml.Node`. A node's `text` stands for `XElement.Value` and is not computed from mixed content.
- Unicode. `char.IsLetter`, `char.IsDigit` and `char.ToUpperInvariant` are modelled by their ASCII behaviour. Other letters and digits, such as `é` or Arabic-Indic digits, are treated as separators.
- Runtime type emission. `ModuleBuilder.DefineEnum`, `DefineLiteral`, `CreateType` and `TypeBuilder` are foreign calls. `EnumLiterals` returns the name and ordinal list that `Create` would pass to `DefineLiteral`.
- The enum's own name, `ConvertCase(GetName())` at RngSpec/Parser.cs:101, is not modelled. Nothing adds candidate names to an `EnumElement`, so `GetName` on its empty table yields a null key, and `ConvertCase(null)` throws at line 24. `Create` as written therefore throws before it numbers any literal. `EnumLiterals` models lines 102-104 on the assumption that line 101 succeeded.
- `SchemaElements.Element.ConvertCase`: requires a non-empty name. The source reads `xmlStr[0]` (RngSpec/Parser.cs:24) and throws `IndexOutOfRangeException` on an empty string; `EnumLiterals` reports that case as `Failure(EmptyName)`.
- `SchemaElements.Element.GetName`: requires a non-empty table. On an empty table `Max` returns `default(KeyValuePair)`, whose key is null; the model has no null strings.
- `SchemaElements.Element.AddCandidateName`: counts are unbounded naturals. The C# `int` count would wrap after 2^31 - 1 votes (unchecked arithmetic), which the model does not capture.
- `SchemaElements.EnumLiterals`: ordinals are unbounded integers. The 32-bit wrap of `i++` after 2^31 literals is not modelled.
- `LinqExtensions.Max`: `default(T)` is passed in as a parameter, and the comparison calls are recorded in a ghost log. The model does not say what happens when a comparison throws or has side effects.
- `Dictionary` enumeration order is taken to be insertion order. This is what .NET does for a dictionary that never has entries removed, and the vote table never removes any.
- Inheritance. `XsElement : Element` is modelled by composition: `XsElement.base` is the `Element` part. `DataTypeElement`, `PrimitiveTypeElement` (which only stores a `System.Type`), `ElementObject` and `Attribute` are empty or hold no logic, so they are not modelled.
- Exceptions are `Result.Failure` values carrying an `Error` kind. The exception types and messages are not modelled.
- `Parser.Expand` has an empty body. The code also has no `combine` merging, no reference expansion, no cycle detection and no type-model building, so none of these are modelled.
