/** The name normalisers of main.go: `shortName`, `lowerCamel`, `jsonName` and
    `plural`. The casing and inflection libraries they wrap are abstract; what
    is modelled is the code the program puts around them. */
module Names {
  import opened Strings
  import opened External

  // ---------------------------------------------------------------------------
  // shortName: lower-cased concatenation of every match of the regexp [A-Z]
  // ---------------------------------------------------------------------------

  /** `FindAllString(s, -1)` for the regular expression `[A-Z]`: every ASCII
      capital of `s`, in order, each as a one-character match. */
  function UpperMatches(s: string): seq<string> {
    if s == [] then []
    else (if IsAsciiUpper(s[0]) then [[s[0]]] else []) + UpperMatches(s[1..])
  }

  /** `strings.Join(parts, "")`. */
  function Join(parts: seq<string>): string {
    if parts == [] then [] else parts[0] + Join(parts[1..])
  }

  /** `shortName`: the terse alias of a name, e.g. "ua" for "UserAccount". */
  function ShortName(s: string): string {
    ToLower(Join(UpperMatches(s)))
  }

  /** Positions of the ASCII capitals of `s`. */
  function UpperIndices(s: string): set<int> {
    set i | 0 <= i < |s| && IsAsciiUpper(s[i])
  }

  lemma {:induction false} UpperMatchesAppend(a: string, b: string)
    ensures UpperMatches(a + b) == UpperMatches(a) + UpperMatches(b)
    decreases |a|
  {
    if a != [] {
      assert (a + b)[1..] == a[1..] + b;
      UpperMatchesAppend(a[1..], b);
    } else {
      assert a + b == b;
    }
  }

  lemma {:induction false} JoinAppend(p: seq<string>, q: seq<string>)
    ensures Join(p + q) == Join(p) + Join(q)
    decreases |p|
  {
    if p != [] {
      assert (p + q)[1..] == p[1..] + q;
      JoinAppend(p[1..], q);
    } else {
      assert p + q == q;
    }
  }

  lemma ToLowerAppend(a: string, b: string)
    ensures ToLower(a + b) == ToLower(a) + ToLower(b)
  {
  }

  /** `shortName` distributes over concatenation ... */
  lemma ShortNameAppend(a: string, b: string)
    ensures ShortName(a + b) == ShortName(a) + ShortName(b)
  {
    UpperMatchesAppend(a, b);
    JoinAppend(UpperMatches(a), UpperMatches(b));
    ToLowerAppend(Join(UpperMatches(a)), Join(UpperMatches(b)));
  }

  /** ... and on one character keeps exactly a capital, lower-cased. Together
      with `ShortNameAppend` this determines `shortName` on every string. */
  lemma ShortNameOfChar(c: char)
    ensures ShortName([c]) == if IsAsciiUpper(c) then [LowerChar(c)] else []
  {
    assert [c][1..] == [];
    assert UpperMatches([c]) == (if IsAsciiUpper(c) then [[c]] else []);
    if IsAsciiUpper(c) {
      assert Join([[c]]) == [c] + Join([]);
    }
  }

  lemma UpperIndicesSnoc(t: string, c: char)
    ensures UpperIndices(t + [c]) ==
      if IsAsciiUpper(c) then UpperIndices(t) + {|t|} else UpperIndices(t)
  {
    var s := t + [c];
    forall i | 0 <= i < |t|
      ensures s[i] == t[i]
    {
    }
  }

  /** The alias has one letter per capital of the name, and only lower-case
      ASCII letters; the empty name has the empty alias. */
  lemma {:induction false} ShortNameCounts(s: string)
    ensures |ShortName(s)| == |UpperIndices(s)|
    ensures s == [] ==> ShortName(s) == []
    decreases |s|
  {
    if s != [] {
      var t, c := s[..|s| - 1], s[|s| - 1];
      assert s == t + [c];
      ShortNameCounts(t);
      ShortNameAppend(t, [c]);
      ShortNameOfChar(c);
      UpperIndicesSnoc(t, c);
      if IsAsciiUpper(c) {
        assert |t| !in UpperIndices(t);
      }
    }
  }

  lemma {:induction false} ShortNameLower(s: string)
    ensures forall i :: 0 <= i < |ShortName(s)| ==> IsAsciiLower(ShortName(s)[i])
    decreases |s|
  {
    if s != [] {
      var c, t := s[0], s[1..];
      assert s == [c] + t;
      ShortNameLower(t);
      ShortNameAppend([c], t);
      ShortNameOfChar(c);
    }
  }

  /** The alias is empty exactly when the name has no ASCII capital. */
  lemma ShortNameEmpty(s: string)
    ensures ShortName(s) == [] <==> forall i :: 0 <= i < |s| ==> !IsAsciiUpper(s[i])
  {
    ShortNameCounts(s);
    if ShortName(s) != [] {
      var k :| k in UpperIndices(s);
    } else {
      assert UpperIndices(s) == {};
      forall i | 0 <= i < |s|
        ensures IsAsciiUpper(s[i]) ==> i in UpperIndices(s)
      {
      }
    }
  }

  /** A capital followed by lower-case letters contributes one letter. */
  lemma ShortNameWord(c: char, rest: string)
    requires IsAsciiUpper(c)
    requires forall i :: 0 <= i < |rest| ==> IsAsciiLower(rest[i])
    ensures ShortName([c] + rest) == [LowerChar(c)]
  {
    ShortNameEmpty(rest);
    ShortNameOfChar(c);
    ShortNameAppend([c], rest);
  }

  /** A capitalised word contributes its lower-cased initial. */
  lemma ShortNameOfWord(w: string)
    requires |w| > 0 && IsAsciiUpper(w[0])
    requires forall i :: 1 <= i < |w| ==> IsAsciiLower(w[i])
    ensures ShortName(w) == [LowerChar(w[0])]
  {
    assert w == [w[0]] + w[1..];
    ShortNameWord(w[0], w[1..]);
  }

  /** "UserAccountSetting" has the alias "uas". */
  lemma ShortNameExample(user: string, account: string, setting: string)
    requires user == "User" && account == "Account" && setting == "Setting"
    ensures ShortName(user + account + setting) == "uas"
  {
    ShortNameOfWord(user);
    ShortNameOfWord(account);
    ShortNameOfWord(setting);
    ShortNameAppend(user, account);
    ShortNameAppend(user + account, setting);
  }

  /** The alias of `UserAccountSetting` is `uas`. */
  lemma ShortNameUas()
    ensures ShortName("UserAccountSetting") == "uas"
  {
    ShortNameExample("User", "Account", "Setting");
    assert "User" + "Account" + "Setting" == "UserAccountSetting";
  }

  // ---------------------------------------------------------------------------
  // lowerCamel: lower-case the first rune, keep the rest
  // ---------------------------------------------------------------------------

  /** `lowerCamel`; only ASCII capitals are mapped (see README). */
  function LowerCamel(s: string): (r: string)
    ensures |r| == |s|
    ensures forall i :: 1 <= i < |s| ==> r[i] == s[i]
    ensures |s| > 0 ==> !IsAsciiUpper(r[0]) && UpperChar(r[0]) == UpperChar(s[0])
  {
    if s == "" then "" else [LowerChar(s[0])] + s[1..]
  }

  lemma LowerCamelIdempotent(s: string)
    ensures LowerCamel(LowerCamel(s)) == LowerCamel(s)
  {
  }

  /** `lowerCamel` changes a name exactly when it starts with a capital. */
  lemma LowerCamelFixpoint(s: string)
    ensures LowerCamel(s) == s <==> s == [] || !IsAsciiUpper(s[0])
  {
    if s != [] && IsAsciiUpper(s[0]) {
      assert LowerCamel(s)[0] != s[0];
    } else if s != [] {
      assert s == [s[0]] + s[1..];
    }
  }

  /** `lowerCamel` removes at most the leading letter of the `shortName` alias. */
  lemma LowerCamelShortName(s: string)
    requires s != []
    ensures ShortName(LowerCamel(s)) ==
      if IsAsciiUpper(s[0]) then ShortName(s)[1..] else ShortName(s)
  {
    var c := s[0];
    assert s == [c] + s[1..];
    assert LowerCamel(s) == [LowerChar(c)] + s[1..];
    ShortNameAppend([c], s[1..]);
    ShortNameAppend([LowerChar(c)], s[1..]);
    ShortNameOfChar(c);
    ShortNameOfChar(LowerChar(c));
  }

  // ---------------------------------------------------------------------------
  // jsonName: strcase.ToLowerCamel followed by ReplaceAll("ID", "Id")
  // ---------------------------------------------------------------------------

  /** The acronym-softening rewrite `strings.ReplaceAll(s, "ID", "Id")`. */
  function SoftenAcronym(s: string): string {
    ReplaceAll(s, "ID", "Id")
  }

  /** Position `i` of `r` is `s[i]`, or is the `d` that replaced the `D` of an
      `ID` in `s`. */
  predicate SoftenedAt(s: string, r: string, i: int)
    requires 0 <= i < |s| && |r| == |s|
  {
    r[i] == s[i] || (i > 0 && s[i - 1] == 'I' && s[i] == 'D' && r[i] == 'd')
  }

  lemma OccursAtID(s: string, j: int)
    ensures OccursAt(s, "ID", j) <==> 0 <= j && j + 1 < |s| && s[j] == 'I' && s[j + 1] == 'D'
  {
    if 0 <= j && j + 1 < |s| {
      assert s[j..j + 2] == [s[j], s[j + 1]];
    }
  }

  lemma {:induction false} SoftenShape(s: string)
    ensures |SoftenAcronym(s)| == |s|
    ensures |s| > 0 ==> SoftenAcronym(s)[0] == s[0]
    ensures forall i :: 0 <= i < |s| ==> SoftenedAt(s, SoftenAcronym(s), i)
    decreases |s|
  {
    var r := SoftenAcronym(s);
    if |s| < 2 {
    } else if s[..2] == "ID" {
      var t := s[2..];
      SoftenShape(t);
      assert r == "Id" + SoftenAcronym(t);
      assert s[0] == 'I' && s[1] == 'D';
      forall i | 0 <= i < |s|
        ensures SoftenedAt(s, r, i)
      {
        if i >= 2 {
          assert SoftenedAt(t, SoftenAcronym(t), i - 2);
        }
      }
    } else {
      var t := s[1..];
      SoftenShape(t);
      assert r == [s[0]] + SoftenAcronym(t);
      forall i | 0 <= i < |s|
        ensures SoftenedAt(s, r, i)
      {
        if i >= 1 {
          assert SoftenedAt(t, SoftenAcronym(t), i - 1);
        }
      }
    }
  }

  /** After softening, no `ID` is left anywhere in the string. */
  lemma {:induction false} SoftenRemovesID(s: string)
    ensures !Contains(SoftenAcronym(s), "ID")
    decreases |s|
  {
    var r := SoftenAcronym(s);
    if |s| < 2 {
      forall j | 0 <= j <= |r|
        ensures !OccursAt(r, "ID", j)
      {
        OccursAtID(r, j);
      }
    } else if s[..2] == "ID" {
      var t := s[2..];
      SoftenRemovesID(t);
      var rt := SoftenAcronym(t);
      assert r == "Id" + rt;
      forall j | 0 <= j <= |r|
        ensures !OccursAt(r, "ID", j)
      {
        OccursAtID(r, j);
        if j >= 2 {
          OccursAtID(rt, j - 2);
          assert !OccursAt(rt, "ID", j - 2);
        }
      }
    } else {
      var t := s[1..];
      SoftenRemovesID(t);
      SoftenShape(t);
      var rt := SoftenAcronym(t);
      assert r == [s[0]] + rt;
      forall j | 0 <= j <= |r|
        ensures !OccursAt(r, "ID", j)
      {
        OccursAtID(r, j);
        if j == 0 {
          assert s[..2] == [s[0], s[1]];
        } else {
          OccursAtID(rt, j - 1);
          assert !OccursAt(rt, "ID", j - 1);
        }
      }
    }
  }

  /** `jsonName`. Whatever the camel-caser returns, the result contains no
      `ID`, has the camel-caser's length, and differs from it only where the
      `D` of an `ID` became `d`. */
  function JsonName(libs: Libraries, s: string): (r: string)
    ensures !Contains(r, "ID")
    ensures |r| == |libs.toLowerCamel(s)|
    ensures forall i :: 0 <= i < |r| ==> SoftenedAt(libs.toLowerCamel(s), r, i)
    ensures !Contains(libs.toLowerCamel(s), "ID") ==> r == libs.toLowerCamel(s)
  {
    var camel := libs.toLowerCamel(s);
    SoftenRemovesID(camel);
    SoftenShape(camel);
    SoftenAbsent(camel);
    SoftenAcronym(camel)
  }

  lemma SoftenAbsent(s: string)
    ensures !Contains(s, "ID") ==> SoftenAcronym(s) == s
  {
    if !Contains(s, "ID") {
      ReplaceAllAbsent(s, "ID", "Id");
    }
  }

  /** A character other than `I` in front is copied and scanning resumes after it. */
  lemma SoftenCons(c: char, t: string)
    requires c != 'I'
    ensures SoftenAcronym([c] + t) == [c] + SoftenAcronym(t)
  {
    var s := [c] + t;
    if |s| >= 2 {
      assert s[..2][0] == c;
      assert s[1..] == t;
    }
  }

  /** Softening twice is softening once. */
  lemma SoftenIdempotent(s: string)
    ensures SoftenAcronym(SoftenAcronym(s)) == SoftenAcronym(s)
  {
    SoftenRemovesID(s);
    ReplaceAllAbsent(SoftenAcronym(s), "ID", "Id");
  }

  /** A prefix without `I` is copied unchanged. */
  lemma {:induction false} SoftenAppendNoI(a: string, b: string)
    requires forall i :: 0 <= i < |a| ==> a[i] != 'I'
    ensures SoftenAcronym(a + b) == a + SoftenAcronym(b)
    decreases |a|
  {
    if a != [] {
      assert a + b == [a[0]] + (a[1..] + b);
      SoftenCons(a[0], a[1..] + b);
      SoftenAppendNoI(a[1..], b);
    } else {
      assert a + b == b;
    }
  }

  /** With a camel-caser that turns "UserID" into "userID", the JSON name is "userId". */
  lemma JsonNameExample(libs: Libraries, user: string, id: string)
    requires user == "user" && id == "ID"
    requires libs.toLowerCamel("UserID") == user + id
    ensures JsonName(libs, "UserID") == "userId"
  {
    SoftenAppendNoI(user, id);
    assert SoftenAcronym(id) == "Id" + SoftenAcronym([]);
  }

  /** When the camel-caser turns `UserID` into `userID`, the JSON name is `userId`. */
  lemma JsonNameUserId(libs: Libraries)
    requires libs.toLowerCamel("UserID") == "userID"
    ensures JsonName(libs, "UserID") == "userId"
  {
    assert "user" + "ID" == "userID";
    JsonNameExample(libs, "user", "ID");
  }

  // ---------------------------------------------------------------------------
  // plural: inflection.Plural with the "information" override
  // ---------------------------------------------------------------------------

  /** `plural`. The result is never the invariant word "information" in either
      spelling; it is the inflection library's answer, with an `s` appended
      exactly when that answer is "information" or "Information". */
  function Plural(libs: Libraries, s: string): (r: string)
    ensures r != "information" && r != "Information"
    ensures r == libs.pluralize(s) || r == libs.pluralize(s) + "s"
    ensures r != libs.pluralize(s) <==>
      libs.pluralize(s) == "information" || libs.pluralize(s) == "Information"
  {
    var out := libs.pluralize(s);
    if out == "information" then "informations"
    else if out == "Information" then "Informations"
    else out
  }
}
