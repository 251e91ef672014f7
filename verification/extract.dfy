/** The declaration extractor `parseFile` of main.go, from the parsed syntax
    tree onward: every struct type spec becomes a `Struct`, every field group
    of it one `Field` per declared name (or one for an embedded field). */
module Extract {
  import opened Wrappers
  import opened Strings
  import opened External
  import opened TypeRender
  import opened Names
  import opened Ast

  /** Why a run aborts; the program panics on both. */
  datatype Error =
    | SyntaxError(reason: string)
    | TagUnquoteError(literal: string)

  datatype Field = Field(
    goName: string,
    goVarName: string,
    nameJson: string,
    goType: string,
    tag: string,
    tagFaker: string,
    tagFixture: string,
    docs: seq<string>,
    comments: seq<string>,
    key: string)

  datatype Struct = Struct(
    goName: string,
    goVarName: string,
    nameJson: string,
    goShortName: string,
    goNames: string,
    goVarNames: string,
    docs: seq<string>,
    comments: seq<string>,
    fields: seq<Field>,
    key: string)

  // ---------------------------------------------------------------------------
  // Comments
  // ---------------------------------------------------------------------------

  function CommentTexts(list: seq<Comment>): (r: seq<string>)
    ensures |r| == |list|
    ensures forall i :: 0 <= i < |list| ==> r[i] == list[i].text
  {
    if list == [] then [] else [list[0].text] + CommentTexts(list[1..])
  }

  /** The texts of a comment group, one per comment and in order; a nil group
      has none. */
  function Texts(group: Option<seq<Comment>>): seq<string> {
    match group
    case None => []
    case Some(list) => CommentTexts(list)
  }

  // ---------------------------------------------------------------------------
  // Struct tags
  // ---------------------------------------------------------------------------

  /** The three values read from a field's tag: the unquoted tag itself and
      its `faker` and `fixture` keys. */
  datatype TagValues = TagValues(tag: string, faker: string, fixture: string)

  const FixturePrefix: string := "string:"

  /** A fixture value marked `string:` is replaced by the quoted text after the
      marker; any other fixture value is kept. */
  function FixtureValue(libs: Libraries, value: string): (r: string)
    ensures HasPrefix(value, FixturePrefix) ==>
      value == FixturePrefix + value[|FixturePrefix|..] &&
      r == libs.quote(value[|FixturePrefix|..])
    ensures !HasPrefix(value, FixturePrefix) ==> r == value
  {
    if HasPrefix(value, "string:") then libs.quote(value[7..]) else value
  }

  /** Marking any value with `string:` makes the fixture its quoted form. */
  lemma FixtureMarked(libs: Libraries, rest: string)
    ensures FixtureValue(libs, FixturePrefix + rest) == libs.quote(rest)
  {
    assert (FixturePrefix + rest)[|FixturePrefix|..] == rest;
  }

  /** A field's tag literal is absent, or unquotes without error. */
  predicate TagReadable(libs: Libraries, literal: Option<string>) {
    literal.None? || libs.unquote(literal.value).Some?
  }

  /** The tag handling of the field loop. */
  function ParseTag(libs: Libraries, literal: Option<string>): (r: Result<TagValues, Error>)
    ensures literal.None? ==> r == Success(TagValues("", "", ""))
    ensures r.Success? <==> TagReadable(libs, literal)
    ensures r.Failure? ==> r.error == TagUnquoteError(literal.value)
    ensures literal.Some? && r.Success? ==>
      var tag := libs.unquote(literal.value).value;
      && r.value.tag == tag
      && r.value.faker == libs.tagGet(tag, "faker")
      && r.value.fixture == FixtureValue(libs, libs.tagGet(tag, "fixture"))
  {
    match literal
    case None => Success(TagValues("", "", ""))
    case Some(raw) =>
      match libs.unquote(raw)
      case None => Failure(TagUnquoteError(raw))
      case Some(tag) =>
        Success(TagValues(tag, libs.tagGet(tag, "faker"),
                          FixtureValue(libs, libs.tagGet(tag, "fixture"))))
  }

  // ---------------------------------------------------------------------------
  // Fields
  // ---------------------------------------------------------------------------

  /** The attributes every field of one group has in common. */
  predicate Shares(f: Field, goType: string, tv: TagValues, docs: seq<string>, comments: seq<string>) {
    && f.goType == goType
    && f.tag == tv.tag
    && f.tagFaker == tv.faker
    && f.tagFixture == tv.fixture
    && f.docs == docs
    && f.comments == comments
  }

  /** The attributes a field takes from its own declared name. */
  predicate NamedAfter(libs: Libraries, f: Field, name: string) {
    && f.goName == name
    && f.goVarName == LowerCamel(name)
    && f.nameJson == JsonName(libs, name)
    && f.key == f.nameJson
  }

  /** One field per declared name, in declaration order. */
  function NamedFields(libs: Libraries, names: seq<string>, goType: string, tv: TagValues,
                       docs: seq<string>, comments: seq<string>): (r: seq<Field>)
    ensures |r| == |names|
    ensures forall i :: 0 <= i < |names| ==>
      NamedAfter(libs, r[i], names[i]) && Shares(r[i], goType, tv, docs, comments)
  {
    if names == [] then []
    else
      var name := names[0];
      var nameJson := JsonName(libs, name);
      [Field(name, LowerCamel(name), nameJson, goType, tv.tag, tv.faker, tv.fixture,
             docs, comments, nameJson)]
      + NamedFields(libs, names[1..], goType, tv, docs, comments)
  }

  /** The fields one field group expands to: one per declared name, or a
      single nameless field keyed by its rendered type for an embedded field. */
  function ExpandGroup(libs: Libraries, g: FieldGroup, tv: TagValues): (r: seq<Field>)
    ensures |r| == if g.names == [] then 1 else |g.names|
    ensures forall i :: 0 <= i < |r| ==>
      Shares(r[i], Render(g.typ), tv, Texts(g.doc), Texts(g.comment))
    ensures forall i :: 0 <= i < |g.names| ==>
      NamedAfter(libs, r[i], g.names[i]) && !Contains(r[i].key, "ID")
    ensures g.names == [] ==>
      r[0].goName == "" && r[0].goVarName == "" && r[0].nameJson == "" && r[0].key == Render(g.typ)
  {
    var goType := Render(g.typ);
    var docs := Texts(g.doc);
    var comments := Texts(g.comment);
    if g.names == [] then
      [Field("", "", "", goType, tv.tag, tv.faker, tv.fixture, docs, comments, goType)]
    else
      NamedFields(libs, g.names, goType, tv, docs, comments)
  }

  /** The declared names of a field list, with "" standing for an embedded field. */
  function DeclaredNames(groups: seq<FieldGroup>): seq<string> {
    if groups == [] then []
    else (if groups[0].names == [] then [""] else groups[0].names) + DeclaredNames(groups[1..])
  }

  function GoNamesOf(fields: seq<Field>): (r: seq<string>)
    ensures |r| == |fields|
    ensures forall i :: 0 <= i < |fields| ==> r[i] == fields[i].goName
  {
    if fields == [] then [] else [fields[0].goName] + GoNamesOf(fields[1..])
  }

  lemma GoNamesOfAppend(a: seq<Field>, b: seq<Field>)
    ensures GoNamesOf(a + b) == GoNamesOf(a) + GoNamesOf(b)
  {
  }

  /** The tag literals of a field list, one per group, in order. */
  function TagsOf(groups: seq<FieldGroup>): (r: seq<Option<string>>)
    ensures |r| == |groups|
    ensures forall k :: 0 <= k < |groups| ==> r[k] == groups[k].tag
  {
    if groups == [] then [] else [groups[0].tag] + TagsOf(groups[1..])
  }

  predicate TagsReadable(libs: Libraries, tags: seq<Option<string>>) {
    forall k :: 0 <= k < |tags| ==> TagReadable(libs, tags[k])
  }

  /** Tag `k` is the first that does not unquote. */
  predicate FirstUnreadable(libs: Libraries, tags: seq<Option<string>>, k: int) {
    && 0 <= k < |tags|
    && !TagReadable(libs, tags[k])
    && forall j :: 0 <= j < k ==> TagReadable(libs, tags[j])
  }

  /** `e` is the error for the first tag of `tags` that does not unquote. */
  predicate ReportsFirst(libs: Libraries, tags: seq<Option<string>>, e: Error) {
    exists k :: 0 <= k < |tags| && FirstUnreadable(libs, tags, k) && e == TagUnquoteError(tags[k].value)
  }

  lemma TagsReadableAppend(libs: Libraries, a: seq<Option<string>>, b: seq<Option<string>>)
    ensures TagsReadable(libs, a + b) <==> TagsReadable(libs, a) && TagsReadable(libs, b)
  {
    var ab := a + b;
    if TagsReadable(libs, ab) {
      forall k | 0 <= k < |a| ensures TagReadable(libs, a[k]) {
        assert ab[k] == a[k];
      }
      forall k | 0 <= k < |b| ensures TagReadable(libs, b[k]) {
        assert ab[|a| + k] == b[k];
      }
    }
  }

  /** The first unreadable tag of a part is the first of the whole when it
      lies in the leading part, or when every tag of the leading part reads. */
  lemma ReportsFirstAppend(libs: Libraries, a: seq<Option<string>>, b: seq<Option<string>>, e: Error)
    ensures ReportsFirst(libs, a, e) ==> ReportsFirst(libs, a + b, e)
    ensures TagsReadable(libs, a) && ReportsFirst(libs, b, e) ==> ReportsFirst(libs, a + b, e)
  {
    var ab := a + b;
    if ReportsFirst(libs, a, e) {
      var k :| 0 <= k < |a| && FirstUnreadable(libs, a, k) && e == TagUnquoteError(a[k].value);
      forall j | 0 <= j <= k ensures ab[j] == a[j] { }
      assert FirstUnreadable(libs, ab, k);
    }
    if TagsReadable(libs, a) && ReportsFirst(libs, b, e) {
      var k :| 0 <= k < |b| && FirstUnreadable(libs, b, k) && e == TagUnquoteError(b[k].value);
      forall j | 0 <= j < |a| + k ensures TagReadable(libs, ab[j]) {
        if j < |a| { assert ab[j] == a[j]; } else { assert ab[j] == b[j - |a|]; }
      }
      assert ab[|a| + k] == b[k];
      assert FirstUnreadable(libs, ab, |a| + k);
    }
  }

  predicate GroupsReadable(libs: Libraries, groups: seq<FieldGroup>) {
    TagsReadable(libs, TagsOf(groups))
  }

  lemma GroupsReadableCons(libs: Libraries, groups: seq<FieldGroup>)
    requires groups != []
    ensures TagsOf(groups) == [groups[0].tag] + TagsOf(groups[1..])
    ensures GroupsReadable(libs, groups) <==>
      TagReadable(libs, groups[0].tag) && GroupsReadable(libs, groups[1..])
  {
    TagsReadableAppend(libs, [groups[0].tag], TagsOf(groups[1..]));
  }

  /** What a field takes from its group rather than from its own name: the
      rendered type, the tag values, the docs and the comments. */
  datatype Origin = Origin(goType: string, tv: TagValues, docs: seq<string>, comments: seq<string>)

  function OriginOf(f: Field): Origin {
    Origin(f.goType, TagValues(f.tag, f.tagFaker, f.tagFixture), f.docs, f.comments)
  }

  function OriginsOf(fields: seq<Field>): (r: seq<Origin>)
    ensures |r| == |fields|
    ensures forall i :: 0 <= i < |fields| ==> r[i] == OriginOf(fields[i])
  {
    if fields == [] then [] else [OriginOf(fields[0])] + OriginsOf(fields[1..])
  }

  lemma OriginsOfAppend(a: seq<Field>, b: seq<Field>)
    ensures OriginsOf(a + b) == OriginsOf(a) + OriginsOf(b)
  {
  }

  /** How many fields a group declares: one per name, or one embedded field. */
  function Width(g: FieldGroup): nat {
    if g.names == [] then 1 else |g.names|
  }

  /** The group attributes of every declared field, in declaration order:
      each group's rendered type, tag values, docs and comments, repeated once
      per field the group declares. */
  function DeclaredOrigins(libs: Libraries, groups: seq<FieldGroup>): seq<Origin>
    requires GroupsReadable(libs, groups)
  {
    if groups == [] then []
    else
      var g := groups[0];
      var o := Origin(Render(g.typ), ParseTag(libs, g.tag).value, Texts(g.doc), Texts(g.comment));
      seq(Width(g), _ => o) + DeclaredOrigins(libs, groups[1..])
  }

  /** Every declared field name is non-empty, as the Go parser guarantees. */
  predicate NamesDeclared(groups: seq<FieldGroup>) {
    forall k, i :: 0 <= k < |groups| && 0 <= i < |groups[k].names| ==> groups[k].names[i] != ""
  }

  /** An embedded field: no names, and keyed by its rendered type. */
  predicate Embedded(f: Field) {
    && f.goName == ""
    && f.goVarName == ""
    && f.nameJson == ""
    && f.key == f.goType
  }

  /** The field loop of one struct. It fails exactly when some tag does not
      unquote, reporting the first; otherwise the fields carry the declared
      names in declaration order, each group's type, tag values, docs and
      comments once per declared field, and the key rule: a named field is
      keyed by the JSON name of its name, an embedded one by its type. */
  function ExtractFields(libs: Libraries, groups: seq<FieldGroup>): (r: Result<seq<Field>, Error>)
    ensures r.Success? <==> GroupsReadable(libs, groups)
    ensures r.Success? ==> GoNamesOf(r.value) == DeclaredNames(groups)
    ensures r.Success? ==> OriginsOf(r.value) == DeclaredOrigins(libs, groups)
    ensures r.Success? ==> forall i :: 0 <= i < |r.value| && r.value[i].goName != "" ==>
      NamedAfter(libs, r.value[i], r.value[i].goName)
    ensures r.Success? && NamesDeclared(groups) ==> forall i :: 0 <= i < |r.value| ==>
      r.value[i].goName != "" || Embedded(r.value[i])
    ensures r.Failure? ==> ReportsFirst(libs, TagsOf(groups), r.error)
  {
    if groups == [] then Success([])
    else
      GroupsReadableCons(libs, groups);
      match ParseTag(libs, groups[0].tag)
      case Failure(e) =>
        assert FirstUnreadable(libs, TagsOf(groups), 0);
        Failure(e)
      case Success(tv) =>
        match ExtractFields(libs, groups[1..])
        case Failure(e) =>
          ReportsFirstAppend(libs, [groups[0].tag], TagsOf(groups[1..]), e);
          Failure(e)
        case Success(rest) =>
          NamesStep(libs, groups, tv, rest);
          OriginsStep(libs, groups, tv, rest);
          NamesDeclaredSplit(groups);
          ExpandKeys(libs, groups[0], tv, rest);
          Success(ExpandGroup(libs, groups[0], tv) + rest)
  }

  /** The declared names carry over from the later groups to all groups. */
  lemma NamesStep(libs: Libraries, groups: seq<FieldGroup>, tv: TagValues, rest: seq<Field>)
    requires groups != []
    requires GoNamesOf(rest) == DeclaredNames(groups[1..])
    ensures GoNamesOf(ExpandGroup(libs, groups[0], tv) + rest) == DeclaredNames(groups)
  {
    var g := groups[0];
    var fields := ExpandGroup(libs, g, tv);
    GoNamesOfAppend(fields, rest);
    assert GoNamesOf(fields) == if g.names == [] then [""] else g.names;
  }

  /** The group attributes carry over from the later groups to all groups. */
  lemma OriginsStep(libs: Libraries, groups: seq<FieldGroup>, tv: TagValues, rest: seq<Field>)
    requires groups != [] && GroupsReadable(libs, groups)
    requires ParseTag(libs, groups[0].tag) == Success(tv)
    requires OriginsOf(rest) == DeclaredOrigins(libs, groups[1..])
    ensures OriginsOf(ExpandGroup(libs, groups[0], tv) + rest) == DeclaredOrigins(libs, groups)
  {
    var g := groups[0];
    ExpandOrigins(libs, g, tv, rest);
  }

  /** Declared names are non-empty in the later groups and in the first group. */
  lemma NamesDeclaredSplit(groups: seq<FieldGroup>)
    requires groups != []
    ensures NamesDeclared(groups) ==> NamesDeclared(groups[1..])
    ensures NamesDeclared(groups) ==> forall i :: 0 <= i < |groups[0].names| ==> groups[0].names[i] != ""
  {
    if !NamesDeclared(groups) { return; }
    forall k, i | 0 <= k < |groups[1..]| && 0 <= i < |groups[1..][k].names|
      ensures groups[1..][k].names[i] != ""
    {
      assert groups[1..][k] == groups[k + 1];
    }
    forall i | 0 <= i < |groups[0].names| ensures groups[0].names[i] != "" {
      assert groups[0].names[i] != "";
    }
  }

  /** The fields of one group followed by later ones have that group's
      attributes, once per declared field, followed by the later ones'. */
  lemma ExpandOrigins(libs: Libraries, g: FieldGroup, tv: TagValues, rest: seq<Field>)
    ensures OriginsOf(ExpandGroup(libs, g, tv) + rest) ==
      seq(Width(g), _ => Origin(Render(g.typ), tv, Texts(g.doc), Texts(g.comment))) + OriginsOf(rest)
  {
    var fields := ExpandGroup(libs, g, tv);
    OriginsOfAppend(fields, rest);
    assert OriginsOf(fields) ==
      seq(Width(g), _ => Origin(Render(g.typ), tv, Texts(g.doc), Texts(g.comment)));
  }

  /** The key rule carries over from one group's fields and the fields after
      them to the whole list. */
  lemma ExpandKeys(libs: Libraries, g: FieldGroup, tv: TagValues, rest: seq<Field>)
    requires forall i :: 0 <= i < |rest| && rest[i].goName != "" ==>
      NamedAfter(libs, rest[i], rest[i].goName)
    ensures var all := ExpandGroup(libs, g, tv) + rest;
      forall i :: 0 <= i < |all| && all[i].goName != "" ==> NamedAfter(libs, all[i], all[i].goName)
    ensures var all := ExpandGroup(libs, g, tv) + rest;
      (forall i :: 0 <= i < |g.names| ==> g.names[i] != "") &&
      (forall i :: 0 <= i < |rest| ==> rest[i].goName != "" || Embedded(rest[i])) ==>
      forall i :: 0 <= i < |all| ==> all[i].goName != "" || Embedded(all[i])
  {
    var fields := ExpandGroup(libs, g, tv);
    var all := fields + rest;
    var declared := forall i :: 0 <= i < |g.names| ==> g.names[i] != "";
    var restKeyed := forall i :: 0 <= i < |rest| ==> rest[i].goName != "" || Embedded(rest[i]);
    forall i | 0 <= i < |all|
      ensures all[i].goName != "" ==> NamedAfter(libs, all[i], all[i].goName)
      ensures declared && restKeyed ==> all[i].goName != "" || Embedded(all[i])
    {
      if i >= |fields| {
        assert all[i] == rest[i - |fields|];
      } else if g.names != [] {
        assert NamedAfter(libs, fields[i], g.names[i]);
      }
    }
  }

  // ---------------------------------------------------------------------------
  // Structs
  // ---------------------------------------------------------------------------

  /** The naming invariant of an extracted struct: its key is its Go name,
      derived from the singular of the declared type name. */
  predicate KeyedByName(libs: Libraries, s: Struct) {
    && s.key == s.goName
    && s.goName == libs.forceCamelIdentifier(libs.singularize(s.goVarName))
    && s.goShortName == ShortName(s.goName)
  }

  /** One struct type spec. */
  function ExtractStruct(libs: Libraries, doc: Option<seq<Comment>>, name: string,
                         groups: seq<FieldGroup>, comment: Option<seq<Comment>>): (r: Result<Struct, Error>)
    ensures r.Success? <==> GroupsReadable(libs, groups)
    ensures r.Failure? ==> r.error.TagUnquoteError?
    ensures r.Failure? ==> ReportsFirst(libs, TagsOf(groups), r.error)
    ensures r.Success? ==>
      && r.value.goVarName == name
      && KeyedByName(libs, r.value)
      && r.value.nameJson == JsonName(libs, name)
      && r.value.goNames == libs.forceCamelIdentifier(Plural(libs, libs.singularize(name)))
      && r.value.goVarNames == libs.toLowerCamel(Plural(libs, libs.singularize(name)))
      && r.value.docs == Texts(doc)
      && r.value.comments == Texts(comment)
      && r.value.fields == ExtractFields(libs, groups).value
  {
    var fields :- ExtractFields(libs, groups);
    var singularName := libs.singularize(name);
    var pluralName := Plural(libs, singularName);
    var goName := libs.forceCamelIdentifier(singularName);
    Success(Struct(
      goName,
      name,
      JsonName(libs, name),
      ShortName(goName),
      libs.forceCamelIdentifier(pluralName),
      libs.toLowerCamel(pluralName),
      Texts(doc),
      Texts(comment),
      fields,
      goName))
  }

  predicate IsStructSpec(spec: Spec) {
    spec.TypeSpec? && spec.body.StructType?
  }

  predicate SpecReadable(libs: Libraries, spec: Spec) {
    IsStructSpec(spec) ==> GroupsReadable(libs, spec.body.fields)
  }

  predicate SpecsReadable(libs: Libraries, specs: seq<Spec>) {
    forall j :: 0 <= j < |specs| ==> SpecReadable(libs, specs[j])
  }

  /** The names of the struct type specs, in order. */
  function StructSpecNames(specs: seq<Spec>): seq<string> {
    if specs == [] then []
    else (if IsStructSpec(specs[0]) then [specs[0].name] else []) + StructSpecNames(specs[1..])
  }

  function VarNamesOf(structs: seq<Struct>): (r: seq<string>)
    ensures |r| == |structs|
    ensures forall i :: 0 <= i < |structs| ==> r[i] == structs[i].goVarName
  {
    if structs == [] then [] else [structs[0].goVarName] + VarNamesOf(structs[1..])
  }

  lemma VarNamesOfAppend(a: seq<Struct>, b: seq<Struct>)
    ensures VarNamesOf(a + b) == VarNamesOf(a) + VarNamesOf(b)
  {
  }

  /** A struct type spec together with the doc comment of the general
      declaration it appears in: the unit that becomes one `Struct`. */
  datatype Site = Site(doc: Option<seq<Comment>>, spec: Spec)

  /** The site of one spec: itself if it is a struct type spec, else none. */
  function SiteOf(doc: Option<seq<Comment>>, spec: Spec): seq<Site> {
    if IsStructSpec(spec) then [Site(doc, spec)] else []
  }

  /** The struct type specs of one general declaration, in order. */
  function SpecSites(doc: Option<seq<Comment>>, specs: seq<Spec>): seq<Site> {
    if specs == [] then [] else SiteOf(doc, specs[0]) + SpecSites(doc, specs[1..])
  }

  /** The struct type specs of one top-level declaration, in order. */
  function DeclSitesOf(d: Decl): seq<Site> {
    if d.GenDecl? then SpecSites(d.doc, d.specs) else []
  }

  /** The struct type specs of every general declaration of a file, in order. */
  function DeclSites(decls: seq<Decl>): seq<Site> {
    if decls == [] then [] else DeclSitesOf(decls[0]) + DeclSites(decls[1..])
  }

  /** The tag literals of every field group of every site, in source order. */
  function SiteTags(sites: seq<Site>): seq<Option<string>> {
    if sites == [] then []
    else (if IsStructSpec(sites[0].spec) then TagsOf(sites[0].spec.body.fields) else [])
         + SiteTags(sites[1..])
  }

  lemma {:induction false} SiteTagsAppend(a: seq<Site>, b: seq<Site>)
    ensures SiteTags(a + b) == SiteTags(a) + SiteTags(b)
    decreases |a|
  {
    if a == [] {
      assert a + b == b;
    } else {
      assert (a + b)[0] == a[0];
      assert (a + b)[1..] == a[1..] + b;
      SiteTagsAppend(a[1..], b);
    }
  }

  /** `st` is the struct `site` yields under `ExtractStruct`. */
  predicate Builds(libs: Libraries, site: Site, st: Struct) {
    && IsStructSpec(site.spec)
    && ExtractStruct(libs, site.doc, site.spec.name, site.spec.body.fields, site.spec.comment) == Success(st)
  }

  /** `rel` pairs the elements of `xs` and `ys` one to one, in order. */
  predicate Pairwise<A, B>(rel: (A, B) -> bool, xs: seq<A>, ys: seq<B>) {
    && |ys| == |xs|
    && forall i :: 0 <= i < |xs| ==> rel(xs[i], ys[i])
  }

  lemma PairwiseAppend<A, B>(rel: (A, B) -> bool, a: seq<A>, b: seq<A>, ya: seq<B>, yb: seq<B>)
    requires Pairwise(rel, a, ya) && Pairwise(rel, b, yb)
    ensures Pairwise(rel, a + b, ya + yb)
  {
    var xs, ys := a + b, ya + yb;
    forall i | 0 <= i < |xs| ensures rel(xs[i], ys[i]) {
      if i < |a| {
        assert xs[i] == a[i] && ys[i] == ya[i];
      } else {
        assert xs[i] == b[i - |a|] && ys[i] == yb[i - |a|];
      }
    }
  }

  /** `Builds` as a relation. */
  function Builder(libs: Libraries): (Site, Struct) -> bool {
    (site, st) => Builds(libs, site, st)
  }

  /** One struct per site, in order, each the one its site yields. */
  predicate BuildsAll(libs: Libraries, sites: seq<Site>, structs: seq<Struct>) {
    Pairwise(Builder(libs), sites, structs)
  }

  /** The structs of one spec: one for a struct type spec, none otherwise. */
  function SpecStructs(libs: Libraries, doc: Option<seq<Comment>>, spec: Spec): (r: Result<seq<Struct>, Error>)
    ensures r.Success? <==> SpecReadable(libs, spec)
    ensures r.Success? ==> VarNamesOf(r.value) == if IsStructSpec(spec) then [spec.name] else []
    ensures r.Success? ==> forall i :: 0 <= i < |r.value| ==>
      KeyedByName(libs, r.value[i]) && r.value[i].docs == Texts(doc)
    ensures r.Success? ==> BuildsAll(libs, SiteOf(doc, spec), r.value)
    ensures r.Success? ==> TagsReadable(libs, SiteTags(SiteOf(doc, spec)))
    ensures r.Failure? ==> ReportsFirst(libs, SiteTags(SiteOf(doc, spec)), r.error)
  {
    SiteOfTags(doc, spec);
    match spec
    case TypeSpec(name, StructType(groups), comment) =>
      BuildsOne(libs, doc, spec);
      var st :- ExtractStruct(libs, doc, name, groups, comment);
      Success([st])
    case _ => Success([])
  }

  lemma SiteOfTags(doc: Option<seq<Comment>>, spec: Spec)
    ensures SiteTags(SiteOf(doc, spec)) == if IsStructSpec(spec) then TagsOf(spec.body.fields) else []
  {
    if IsStructSpec(spec) {
      assert SiteOf(doc, spec)[1..] == [];
    }
  }

  lemma BuildsOne(libs: Libraries, doc: Option<seq<Comment>>, spec: Spec)
    requires IsStructSpec(spec)
    ensures var r := ExtractStruct(libs, doc, spec.name, spec.body.fields, spec.comment);
      r.Success? ==> BuildsAll(libs, SiteOf(doc, spec), [r.value])
  {
    var r := ExtractStruct(libs, doc, spec.name, spec.body.fields, spec.comment);
    if r.Success? {
      assert Builder(libs)(Site(doc, spec), r.value);
    }
  }

  lemma SpecsReadableCons(libs: Libraries, specs: seq<Spec>)
    requires specs != []
    ensures SpecsReadable(libs, specs) <==>
      SpecReadable(libs, specs[0]) && SpecsReadable(libs, specs[1..])
  {
    if SpecReadable(libs, specs[0]) && SpecsReadable(libs, specs[1..]) {
      forall j | 0 <= j < |specs| ensures SpecReadable(libs, specs[j]) {
        if j > 0 { assert specs[j] == specs[1..][j - 1]; }
      }
    }
  }

  /** The specs of one general declaration. Only struct type specs produce a
      struct, one each and in order, each the struct `ExtractStruct` makes of
      it with the declaration's doc comment. The first tag in source order
      that does not unquote aborts the declaration. */
  function ExtractSpecs(libs: Libraries, doc: Option<seq<Comment>>, specs: seq<Spec>): (r: Result<seq<Struct>, Error>)
    ensures r.Success? <==> SpecsReadable(libs, specs)
    ensures r.Success? ==> VarNamesOf(r.value) == StructSpecNames(specs)
    ensures r.Success? ==> forall i :: 0 <= i < |r.value| ==>
      KeyedByName(libs, r.value[i]) && r.value[i].docs == Texts(doc)
    ensures r.Success? ==> BuildsAll(libs, SpecSites(doc, specs), r.value)
    ensures r.Success? ==> TagsReadable(libs, SiteTags(SpecSites(doc, specs)))
    ensures r.Failure? ==> ReportsFirst(libs, SiteTags(SpecSites(doc, specs)), r.error)
  {
    if specs == [] then Success([])
    else
      SpecsReadableCons(libs, specs);
      var here, later := SiteOf(doc, specs[0]), SpecSites(doc, specs[1..]);
      SiteTagsAppend(here, later);
      match SpecStructs(libs, doc, specs[0])
      case Failure(e) =>
        ReportsFirstAppend(libs, SiteTags(here), SiteTags(later), e);
        Failure(e)
      case Success(hs) =>
        match ExtractSpecs(libs, doc, specs[1..])
        case Failure(e) =>
          ReportsFirstAppend(libs, SiteTags(here), SiteTags(later), e);
          Failure(e)
        case Success(rest) =>
          VarNamesOfAppend(hs, rest);
          PairwiseAppend(Builder(libs), here, later, hs, rest);
          TagsReadableAppend(libs, SiteTags(here), SiteTags(later));
          Success(hs + rest)
  }

  predicate DeclReadable(libs: Libraries, d: Decl) {
    d.GenDecl? ==> SpecsReadable(libs, d.specs)
  }

  predicate DeclsReadable(libs: Libraries, decls: seq<Decl>) {
    forall i :: 0 <= i < |decls| ==> DeclReadable(libs, decls[i])
  }

  lemma DeclsReadableCons(libs: Libraries, decls: seq<Decl>)
    requires decls != []
    ensures DeclsReadable(libs, decls) <==>
      DeclReadable(libs, decls[0]) && DeclsReadable(libs, decls[1..])
  {
    if DeclReadable(libs, decls[0]) && DeclsReadable(libs, decls[1..]) {
      forall j | 0 <= j < |decls| ensures DeclReadable(libs, decls[j]) {
        if j > 0 { assert decls[j] == decls[1..][j - 1]; }
      }
    }
  }

  /** The names of the struct type specs of every general declaration, in order. */
  function DeclStructNames(decls: seq<Decl>): seq<string> {
    if decls == [] then []
    else (if decls[0].GenDecl? then StructSpecNames(decls[0].specs) else [])
         + DeclStructNames(decls[1..])
  }

  /** The structs of one top-level declaration: those of its specs for a
      general declaration, none for a function. */
  function DeclStructs(libs: Libraries, d: Decl): (r: Result<seq<Struct>, Error>)
    ensures r.Success? <==> DeclReadable(libs, d)
    ensures r.Success? ==> VarNamesOf(r.value) == if d.GenDecl? then StructSpecNames(d.specs) else []
    ensures r.Success? ==> forall i :: 0 <= i < |r.value| ==> KeyedByName(libs, r.value[i])
    ensures r.Success? ==> BuildsAll(libs, DeclSitesOf(d), r.value)
    ensures r.Success? ==> TagsReadable(libs, SiteTags(DeclSitesOf(d)))
    ensures r.Failure? ==> ReportsFirst(libs, SiteTags(DeclSitesOf(d)), r.error)
  {
    match d
    case GenDecl(doc, specs) => ExtractSpecs(libs, doc, specs)
    case FuncDecl => Success([])
  }

  /** The top-level declarations of one file: one struct per struct type
      spec across all general declarations, in order, each the struct
      `ExtractStruct` makes of it. The first tag in source order that does
      not unquote aborts the file. */
  function ExtractDecls(libs: Libraries, decls: seq<Decl>): (r: Result<seq<Struct>, Error>)
    ensures r.Success? <==> DeclsReadable(libs, decls)
    ensures r.Success? ==> VarNamesOf(r.value) == DeclStructNames(decls)
    ensures r.Success? ==> forall i :: 0 <= i < |r.value| ==> KeyedByName(libs, r.value[i])
    ensures r.Success? ==> BuildsAll(libs, DeclSites(decls), r.value)
    ensures r.Success? ==> TagsReadable(libs, SiteTags(DeclSites(decls)))
    ensures r.Failure? ==> ReportsFirst(libs, SiteTags(DeclSites(decls)), r.error)
  {
    if decls == [] then Success([])
    else
      DeclsReadableCons(libs, decls);
      var here, later := DeclSitesOf(decls[0]), DeclSites(decls[1..]);
      SiteTagsAppend(here, later);
      match DeclStructs(libs, decls[0])
      case Failure(e) =>
        ReportsFirstAppend(libs, SiteTags(here), SiteTags(later), e);
        Failure(e)
      case Success(hs) =>
        match ExtractDecls(libs, decls[1..])
        case Failure(e) =>
          ReportsFirstAppend(libs, SiteTags(here), SiteTags(later), e);
          Failure(e)
        case Success(rest) =>
          VarNamesOfAppend(hs, rest);
          PairwiseAppend(Builder(libs), here, later, hs, rest);
          TagsReadableAppend(libs, SiteTags(here), SiteTags(later));
          Success(hs + rest)
  }

  /** `parseFile`. A file that does not parse is a syntax error. A parsed
      file aborts on the first struct tag, in source order, that does not
      unquote; otherwise it yields one struct per struct type spec, in
      order, each the struct `ExtractStruct` makes of it. */
  function ParseFile(libs: Libraries, unit: SourceUnit): (r: Result<seq<Struct>, Error>)
    ensures unit.Unparseable? ==> r == Failure(SyntaxError(unit.reason))
    ensures unit.Parsed? ==> (r.Success? <==> DeclsReadable(libs, unit.decls))
    ensures r.Success? ==>
      && VarNamesOf(r.value) == DeclStructNames(unit.decls)
      && forall i :: 0 <= i < |r.value| ==> KeyedByName(libs, r.value[i])
    ensures unit.Parsed? && r.Success? ==> BuildsAll(libs, DeclSites(unit.decls), r.value)
    ensures unit.Parsed? && r.Failure? ==> ReportsFirst(libs, SiteTags(DeclSites(unit.decls)), r.error)
  {
    match unit
    case Unparseable(reason) => Failure(SyntaxError(reason))
    case Parsed(decls) => ExtractDecls(libs, decls)
  }

  /** Struct `i` of a parsed file comes from the `i`-th struct type spec of
      the file, and its fields are the field loop's result over that spec's
      field list, so every property of `ExtractFields` holds of them. */
  lemma ParseFileFields(libs: Libraries, decls: seq<Decl>, i: int)
    requires ParseFile(libs, Parsed(decls)).Success?
    requires 0 <= i < |ParseFile(libs, Parsed(decls)).value|
    ensures i < |DeclSites(decls)| && IsStructSpec(DeclSites(decls)[i].spec)
    ensures var site, st := DeclSites(decls)[i], ParseFile(libs, Parsed(decls)).value[i];
      && st.goVarName == site.spec.name
      && st.docs == Texts(site.doc)
      && st.comments == Texts(site.spec.comment)
      && st.fields == ExtractFields(libs, site.spec.body.fields).value
  {
    var sites, structs := DeclSites(decls), ParseFile(libs, Parsed(decls)).value;
    assert Builder(libs)(sites[i], structs[i]);
  }
}
