/** The field type renderer `getType` of main.go. It knows three expression
    shapes; everything else (arrays, maps, interfaces, function types, inline
    structs, ...) renders as the sentinel "---". */
module TypeRender {
  import opened Wrappers
  import opened Strings

  /** The type expressions `getType` distinguishes. `Selector` is a qualified
      name `pkg.Name`: its qualifier is the text Go's `%s` prints for the
      selector's left operand, which for a package name is the name itself. */
  datatype Expr =
    | Ident(name: string)
    | Selector(qualifier: string, sel: string)
    | Star(x: Expr)
    | Other

  /** What `getType` returns for a shape it does not know. */
  const Sentinel: string := "---"

  /** `getType`. */
  function Render(e: Expr): string {
    match e
    case Ident(name) => name
    case Selector(qualifier, sel) => qualifier + "." + sel
    case Star(x) => "*" + Render(x)
    case Other => Sentinel
  }

  // ---------------------------------------------------------------------------
  // Go identifiers, and the expressions built from them
  // ---------------------------------------------------------------------------

  /** A Go letter; every non-ASCII character is admitted as a letter. */
  predicate IsLetter(c: char) {
    IsAsciiUpper(c) || IsAsciiLower(c) || c == '_' || c as int >= 0x80
  }

  predicate IsIdentChar(c: char) {
    IsLetter(c) || '0' <= c <= '9'
  }

  predicate IsIdentifier(s: string) {
    |s| > 0 && IsLetter(s[0]) && forall i :: 0 <= i < |s| ==> IsIdentChar(s[i])
  }

  /** Every name in the expression is a Go identifier, as the parser guarantees. */
  predicate NamesValid(e: Expr) {
    match e
    case Ident(name) => IsIdentifier(name)
    case Selector(qualifier, sel) => IsIdentifier(qualifier) && IsIdentifier(sel)
    case Star(x) => NamesValid(x)
    case Other => true
  }

  /** The expression bottoms out in a shape `getType` does not know. */
  predicate Unresolved(e: Expr) {
    match e
    case Other => true
    case Star(x) => Unresolved(x)
    case _ => false
  }

  // ---------------------------------------------------------------------------
  // A reader for rendered types, the inverse of `Render`
  // ---------------------------------------------------------------------------

  /** Index of the first `.` in `s`. */
  function FirstDot(s: string): (r: Option<nat>)
    ensures r.Some? ==> r.value < |s| && s[r.value] == '.'
    ensures r.Some? ==> forall j :: 0 <= j < r.value ==> s[j] != '.'
    ensures r.None? ==> forall j :: 0 <= j < |s| ==> s[j] != '.'
  {
    if s == [] then None
    else if s[0] == '.' then Some(0)
    else match FirstDot(s[1..])
      case Some(i) => Some(i + 1)
      case None => None
  }

  lemma {:induction false} FirstDotAt(s: string, k: nat)
    requires k < |s| && s[k] == '.'
    requires forall j :: 0 <= j < k ==> s[j] != '.'
    ensures FirstDot(s) == Some(k)
    decreases k
  {
    if k > 0 {
      FirstDotAt(s[1..], k - 1);
    }
  }

  /** Reads a rendered type back: leading `*`s are pointers, then either one
      identifier or two identifiers joined by the first `.`. */
  function ParseTypeString(s: string): Option<Expr>
    decreases |s|
  {
    if |s| > 0 && s[0] == '*' then
      match ParseTypeString(s[1..])
      case Some(x) => Some(Star(x))
      case None => None
    else if IsIdentifier(s) then Some(Ident(s))
    else match FirstDot(s)
      case Some(i) =>
        if IsIdentifier(s[..i]) && IsIdentifier(s[i + 1..])
        then Some(Selector(s[..i], s[i + 1..]))
        else None
      case None => None
  }

  // ---------------------------------------------------------------------------
  // Properties of `getType`
  // ---------------------------------------------------------------------------

  /** Rendering is lossless for expressions `getType` knows: reading the
      rendered string back yields the expression. */
  lemma {:induction false} RenderRoundTrip(e: Expr)
    requires NamesValid(e) && !Unresolved(e)
    ensures ParseTypeString(Render(e)) == Some(e)
  {
    match e
    case Ident(name) =>
    case Selector(q, sel) =>
      var s := Render(e);
      assert s == q + "." + sel;
      assert s[0] == q[0];
      assert s[|q|] == '.';
      assert !IsIdentChar(s[|q|]);
      forall j | 0 <= j < |q|
        ensures s[j] != '.'
      {
        assert s[j] == q[j] && IsIdentChar(q[j]);
      }
      FirstDotAt(s, |q|);
      assert s[..|q|] == q;
      assert s[|q| + 1..] == sel;
    case Star(x) =>
      RenderRoundTrip(x);
      assert Render(e)[1..] == Render(x);
  }

  /** Two known expressions with the same rendering are the same expression. */
  lemma RenderInjective(e1: Expr, e2: Expr)
    requires NamesValid(e1) && !Unresolved(e1)
    requires NamesValid(e2) && !Unresolved(e2)
    requires Render(e1) == Render(e2)
    ensures e1 == e2
  {
    RenderRoundTrip(e1);
    RenderRoundTrip(e2);
  }

  /** The sentinel is distinguishable from every real rendering: it is what
      `getType` returns exactly for an unknown shape. */
  lemma RenderSentinel(e: Expr)
    requires NamesValid(e)
    ensures Render(e) == Sentinel <==> e.Other?
  {
    match e
    case Ident(name) =>
      assert !IsLetter(Sentinel[0]);
    case Selector(q, sel) =>
      assert Render(e)[|q|] == '.';
    case Star(x) =>
      assert Render(e)[0] == '*';
    case Other =>
  }

  /** A rendering ends in the sentinel exactly when the expression is, under
      zero or more pointers, a shape `getType` does not know. */
  lemma {:induction false} RenderUnresolved(e: Expr)
    requires NamesValid(e)
    ensures HasSuffix(Render(e), Sentinel) <==> Unresolved(e)
  {
    match e
    case Ident(name) =>
      assert !IsIdentChar('-') && IsIdentChar(name[|name| - 1]);
      SuffixLast(name, Sentinel);
    case Selector(q, sel) =>
      var s := Render(e);
      assert s[|s| - 1] == sel[|sel| - 1];
      assert !IsIdentChar('-') && IsIdentChar(sel[|sel| - 1]);
      SuffixLast(s, Sentinel);
    case Star(x) =>
      RenderUnresolved(x);
      var r := Render(x);
      var s := Render(e);
      assert s == "*" + r;
      if |r| >= 3 {
        assert s[|s| - 3..] == r[|r| - 3..];
      } else {
        SuffixWhole(s, Sentinel);
        assert s[0] == '*';
      }
    case Other =>
  }
}
