# go-struct-json extraction core, modelled in Dafny

`go-struct-json` reads Go source files and writes a JSON document that
describes every struct type declared in them: the struct's names in several
spellings (singular, plural, lower camel, JSON, a short acronym), its doc and
line comments, and one entry per field with the field's names, its rendered
type, its struct tag and the `faker` and `fixture` values of that tag. The
entries of all files are pooled and sorted by key, and wrapped in an envelope
whose source kind is always `"go"`.

This project models the extraction core of `main.go` as pure functions over
the parsed syntax tree and proves properties of it:

| file | module | models |
|---|---|---|
| `wrappers.dfy` | `Wrappers` | `Option` (nil) and `Result` (panic or returned error) |
| `strings.dfy` | `Strings` | ASCII case mapping, `HasPrefix`, `Contains`, `ReplaceAll`, Go's `<` on strings |
| `external.dfy` | `External` | the library functions the code calls, as a record of total functions |
| `names.dfy` | `Names` | `shortName`, `lowerCamel`, `jsonName`, `plural` |
| `types.dfy` | `TypeRender` | `getType` over identifiers, selectors, pointers and everything else |
| `ast.dfy` | `Ast` | the parts of `go/ast` the extractor reads |
| `extract.dfy` | `Extract` | `parseFile` from the parsed tree onward: `Struct` and `Field` records |
| `assemble.dfy` | `Assemble` | the pooling, sorting and envelope of `process` |

The libraries `strcase.ToLowerCamel`, `snaker.ForceCamelIdentifier`,
`inflection.Plural`/`Singular`, `reflect.StructTag.Get` and
`strconv.Quote`/`Unquote` are fields of `External.Libraries`, passed as a
parameter. Nothing is assumed about what they return, so every property
below holds for any implementation of them. What is verified is the code
`main.go` wraps around them: the `ID` to `Id` rewrite, the `information`
override, the `string:` fixture marker, the field expansion, the sort and
the envelope.

The Go parser is a parameter too. A source unit arrives either as its list of
top-level declarations or as the reason it did not parse. The two panics of
`parseFile` become `Failure` results: a file that does not parse, and a struct
tag that `strconv.Unquote` rejects. Either one aborts the whole run, and the
first failure in file order and field order is the one reported.

Go compares strings byte by byte on their UTF-8 encodings. That order is the
same as lexicographic order on code points, and `Strings.Less` defines it
that way. `Strings.LessEq` is proved to be a total order.

## Model

| member | source | states |
|---|---|---|
| `TypeRender.RenderRoundTrip` | main.go:253-265 | for identifiers, qualified names and pointers to them, the rendered string reads back as the same expression, so rendering loses nothing |
| `TypeRender.RenderInjective` | main.go:253-265 | two such expressions with the same rendering are equal |
| `TypeRender.RenderSentinel` | main.go:253-265 | the rendering is `"---"` exactly when the shape is unknown (anything but identifier, selector or pointer), so the sentinel never collides with a real type |
| `TypeRender.RenderUnresolved` | main.go:253-265 | a rendering ends in `"---"` exactly when the expression is an unknown shape under zero or more pointers (`*---` for a pointer to an array, say) |
| `Names.ShortNameAppend` | main.go:235-239 | `shortName` of a concatenation is the concatenation of the `shortName`s |
| `Names.ShortNameOfChar` | main.go:235-239 | one character yields itself lower-cased if it is an ASCII capital and nothing otherwise; with `ShortNameAppend` this fixes `shortName` on every string: the capitals, in order, lower-cased |
| `Names.ShortNameCounts` | main.go:235-239 | the alias has exactly as many characters as the name has ASCII capitals, and `""` maps to `""` |
| `Names.ShortNameLower` | main.go:235-239 | every character of the alias is a lower-case ASCII letter |
| `Names.ShortNameEmpty` | main.go:235-239 | the alias is empty exactly when the name has no ASCII capital |
| `Names.ShortNameUas` | main.go:235-239 | `UserAccountSetting` has the alias `uas` |
| `Names.LowerCamel` | main.go:245-251 | same length; everything after the first character is unchanged; the first character is no longer a capital and equals the original up to case; `""` maps to `""` |
| `Names.LowerCamelIdempotent` | main.go:245-251 | applying `lowerCamel` twice is applying it once |
| `Names.LowerCamelFixpoint` | main.go:245-251 | `lowerCamel` changes a name exactly when the name starts with an ASCII capital |
| `Names.LowerCamelShortName` | main.go:235-251 | `lowerCamel` removes the leading letter of the `shortName` alias when the name starts with a capital, and leaves the alias alone otherwise |
| `Names.SoftenShape` | main.go:242 | the `ID` to `Id` rewrite keeps the length and the first character, and changes a position only from the `D` of an `ID` to `d` |
| `Names.SoftenRemovesID` | main.go:242 | after the rewrite the string contains no `ID` anywhere, including occurrences the rewrite itself could have formed |
| `Names.SoftenIdempotent` | main.go:242 | rewriting twice is rewriting once |
| `Names.JsonName` | main.go:241-243 | whatever the camel-caser returns, the JSON name contains no `ID`, has the camel-caser's length, differs from it only where an `ID` became `Id`, and equals it when it had no `ID` |
| `Names.JsonNameUserId` | main.go:241-243 | when the camel-caser turns `UserID` into `userID`, the JSON name is `userId` |
| `Names.Plural` | main.go:113-121 | the result is never `information` or `Information`; it is the inflection result, with an `s` appended exactly when that result is one of those two words |
| `Extract.FixtureValue` | main.go:180-182 | a fixture value with the `string:` marker becomes the quoted text after the marker (the 7 dropped characters are exactly the marker); any other value is kept |
| `Extract.FixtureMarked` | main.go:180-182 | for every value, marking it with `string:` makes the fixture exactly its quoted form |
| `Extract.ParseTag` | main.go:171-183 | without a tag, the tag, faker and fixture values are all `""`; a tag that does not unquote is an error; otherwise faker and fixture are read from the unquoted tag and the fixture marker is handled |
| `Extract.CommentTexts` | main.go:157-168 | the texts of a comment group, one per comment, same length and order |
| `Extract.NamedFields` | main.go:207-223 | one field per declared name, in order, each keyed by the JSON name of its own name and sharing type, tag values, docs and comments |
| `Extract.ExpandGroup` | main.go:196-223 | a group with k > 0 names gives exactly k fields in declaration order, keyed by their JSON names (which contain no `ID`); a group without names gives exactly one field with empty names keyed by its rendered type; all share type, tag, faker, fixture, docs and comments |
| `Extract.ExtractFields` | main.go:170-224 | the field loop succeeds exactly when every tag unquotes, and otherwise reports the first tag that does not unquote; on success the fields carry the declared names in declaration order (`""` for an embedded field), and each group's rendered type, unquoted tag, `faker` and `fixture` values, docs and comments once per field the group declares; a named field has the lower-camel var name and the JSON name of its name and is keyed by that JSON name, and, when every declared name is non-empty (as the Go parser guarantees), a field without a name is embedded: empty var and JSON names, keyed by its rendered type |
| `Extract.ExtractStruct` | main.go:142-224 | a struct's key is its Go name, which is the forced camel identifier of the singular of the type name; its var name is the type name; its plural spellings come from the overridden plural of the singular; its alias is the `shortName` of the Go name; docs and comments are the comment texts in order; its fields are exactly those of the field loop over its field groups, with every property `Extract.ExtractFields` states; when a tag does not unquote, the error names the first such tag in field order |
| `Extract.ExtractSpecs` | main.go:137-224 | only struct type specs produce a struct, one each and in spec order, and each is exactly the struct `Extract.ExtractStruct` makes of its spec with the declaration's doc comment; it fails exactly when a tag of one of them does not unquote, and then reports the first such tag in source order |
| `Extract.ExtractDecls` | main.go:132-230 | the structs of a file correspond one to one, in order, to the struct type specs of all its general declarations (function declarations contribute none), each exactly the struct `Extract.ExtractStruct` makes of its spec with its declaration's doc comment; a tag that does not unquote aborts the file with the first such tag in source order |
| `Extract.ParseFile` | main.go:123-233 | a file that does not parse is a syntax error; a parsed file fails exactly when some struct tag does not unquote, and then reports the first such tag in source order as a tag error; otherwise it yields one struct per struct type spec, in order, each exactly the struct `Extract.ExtractStruct` makes of that spec |
| `Extract.ParseFileFields` | main.go:132-224 | struct `i` of a parsed file comes from the file's `i`-th struct type spec: its var name is the spec's name, its docs those of the spec's declaration, its comments the spec's, and its fields the field loop's result over that spec's field list |
| `Assemble.Insert` | main.go:79-81 | inserting into a key-ordered list keeps it key-ordered and adds exactly the one struct |
| `Assemble.SortByKey` | main.go:79-81 | the result is in key order and is a permutation of the input |
| `Assemble.AdjacentStringsSorted` | main.go:79-81 | order between neighbouring keys gives order between every earlier and later key |
| `Assemble.AdjacentIsSorted` | main.go:79-81 | key order between neighbours gives key order between every earlier and later struct |
| `Assemble.Pool` | main.go:74-78 | for any per-file extraction, the loop succeeds exactly when every file does, and otherwise reports the error of the first failing file |
| `Assemble.ExtractAll` | main.go:74-78 | pooling succeeds exactly when every file extracts; otherwise the error is that of the first failing file |
| `Assemble.PoolPermutation` | main.go:74-78 | for any per-file extraction, running the loop over the files in another order succeeds or fails alike and pools the same structs |
| `Assemble.ExtractAllAppend` | main.go:74-78 | pooling two groups of files succeeds when both do and concatenates their structs in order |
| `Assemble.ExtractAllSingle` | main.go:74-78 | pooling one file yields exactly that file's result |
| `Assemble.Process` | main.go:73-86 | the document succeeds exactly when every file extracts; its data is a permutation of the pooled structs, sorted non-decreasingly by key; its kind is the given kind and its source kind is `"go"` |
| `Assemble.ExtractAllPermutation` | main.go:74-78 | pooling the files in another order succeeds or fails alike and pools the same structs |
| `Assemble.SortedStringsUnique` | main.go:79-81 | two key-sorted lists with the same keys are identical, so the key order of the document is fully determined |
| `Assemble.ProcessOrderIndependent` | main.go:73-86 | the order of the input files does not change whether the run succeeds, nor the sequence of keys in the document |

## Left out

- Flag parsing, `main`, the choice of output path and the writing of the document to a file or to standard output (main.go:27-30, 59-65, 87-110): command-line and I/O glue.
- `parser.ParseFile` and `token.FileSet` (main.go:124-128): the parsed declarations are the input; a parse failure is the `Unparseable` case.
- `json.MarshalIndent` and the JSON field tags of `Field`, `Struct` and `FileContent`: serialisation. With `omitempty`, a nil list and an empty list give the same JSON, so the model uses the empty sequence for both.
- `Struct.Embeds` (main.go:55): the code never fills it and never serialises it.
- The doc comment of a type spec itself is never read by the code (only the enclosing declaration's doc is), so it is not part of the input model.
- The external libraries: their results are unconstrained parameters, so no property depends on what they compute.
- The `pp.Println` diagnostic in the default branch of `getType` (main.go:262): logging only.
- `TypeRender.Render`: a selector's left operand is modelled as the text `%s` prints for it, which for a package name is the name; how `fmt` prints any other operand is not modelled.
- Names.LowerCamel: lower-cases only ASCII capitals, because full Unicode case mapping of `unicode.ToLower` is not modelled; decoding invalid UTF-8 is not modelled either, as strings are sequences of code points.
- Assemble.SortByKey: `sort.Slice` is not stable, so the order Go gives structs with equal keys is not specified; the model fixes one admissible order (insertion sort, equal keys in pooled order) and states only what the source promises, key order and permutation.
- Array, map and interface types have no case of their own in `getType` (main.go:253-265): they render as the `"---"` sentinel, as `TypeRender.RenderSentinel` states, and the model has no array or not-null flag, no map rendering and no interface types.
- Only the `faker` and `fixture` keys are read from a struct tag (main.go:177-182); no other tag key, storage-column or query directive is interpreted by the code, so none is modelled.
