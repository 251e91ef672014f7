/** The assembling part of `process` in main.go: pool the structs of every
    input file, sort them by key and wrap them in the output envelope. */
module Assemble {
  import opened Wrappers
  import opened Strings
  import opened External
  import opened Ast
  import opened Extract

  /** The output document `FileContent`. */
  datatype FileContent = FileContent(kind: string, srcKind: string, data: seq<Struct>)

  /** The source kind every document carries. */
  const SourceKind: string := "go"

  // ---------------------------------------------------------------------------
  // Ordering by key
  // ---------------------------------------------------------------------------

  /** Neighbours are in key order. */
  predicate SortedAdjacent(s: seq<Struct>) {
    forall i :: 0 < i < |s| ==> LessEq(s[i - 1].key, s[i].key)
  }

  /** Every earlier string is no greater than every later one. */
  predicate SortedStrings(k: seq<string>) {
    forall i, j :: 0 <= i < j < |k| ==> LessEq(k[i], k[j])
  }

  function Keys(s: seq<Struct>): (r: seq<string>)
    ensures |r| == |s|
    ensures forall i :: 0 <= i < |s| ==> r[i] == s[i].key
  {
    if s == [] then [] else [s[0].key] + Keys(s[1..])
  }

  lemma KeysAppend(a: seq<Struct>, b: seq<Struct>)
    ensures Keys(a + b) == Keys(a) + Keys(b)
  {
  }

  /** Every earlier struct has a key no greater than every later one. */
  predicate SortedByKey(s: seq<Struct>) {
    SortedStrings(Keys(s))
  }

  /** Order between neighbours gives order between every earlier and later
      string. */
  lemma {:induction false} AdjacentStringsSorted(k: seq<string>)
    requires forall i :: 0 < i < |k| ==> LessEq(k[i - 1], k[i])
    ensures SortedStrings(k)
    decreases |k|
  {
    if |k| > 1 {
      var init := k[..|k| - 1];
      AdjacentStringsSorted(init);
      var last := |k| - 1;
      forall i | 0 <= i < last
        ensures LessEq(k[i], k[last])
      {
        if i < last - 1 {
          assert LessEq(init[i], init[last - 1]);
          LessEqTransitive(k[i], k[last - 1], k[last]);
        }
      }
    }
  }

  lemma AdjacentIsSorted(s: seq<Struct>)
    requires SortedAdjacent(s)
    ensures SortedByKey(s)
  {
    var k := Keys(s);
    forall i | 0 < i < |k| ensures LessEq(k[i - 1], k[i]) {
      assert k[i - 1] == s[i - 1].key;
    }
    AdjacentStringsSorted(k);
  }

  /** Inserts `x` in front of the first struct whose key is not smaller, so
      `x` precedes the structs with an equal key. */
  function Insert(x: Struct, s: seq<Struct>): (r: seq<Struct>)
    requires SortedAdjacent(s)
    ensures SortedAdjacent(r)
    ensures multiset(r) == multiset(s) + multiset{x}
    ensures r[0] == x || (|s| > 0 && r[0] == s[0])
  {
    if s == [] then [x]
    else if Less(s[0].key, x.key) then
      LessAsymmetric(s[0].key, x.key);
      assert s == [s[0]] + s[1..];
      [s[0]] + Insert(x, s[1..])
    else [x] + s
  }

  /** A sort by key: insertion sort, which keeps structs with equal keys in
      input order. */
  function SortByKey(s: seq<Struct>): (r: seq<Struct>)
    ensures SortedAdjacent(r)
    ensures multiset(r) == multiset(s)
  {
    if s == [] then []
    else
      assert s == [s[0]] + s[1..];
      Insert(s[0], SortByKey(s[1..]))
  }

  // ---------------------------------------------------------------------------
  // Pooling the files
  // ---------------------------------------------------------------------------

  /** Unit `i` is the first whose extraction fails. */
  predicate FirstFailure<U>(extract: U -> Result<seq<Struct>, Error>, units: seq<U>, i: int) {
    && 0 <= i < |units|
    && extract(units[i]).Failure?
    && forall j :: 0 <= j < i ==> extract(units[j]).Success?
  }

  /** The loop over the input files, for any way of extracting one file: the
      structs of every file, concatenated in file order. One failing file
      aborts the whole loop with its error, and it is the first failing file
      that is reported. */
  function Pool<U>(extract: U -> Result<seq<Struct>, Error>, units: seq<U>): (r: Result<seq<Struct>, Error>)
    ensures r.Success? <==> forall i :: 0 <= i < |units| ==> extract(units[i]).Success?
    ensures r.Failure? ==>
      exists i :: FirstFailure(extract, units, i) && r.error == extract(units[i]).error
  {
    if units == [] then Success([])
    else
      match extract(units[0])
      case Failure(e) =>
        assert FirstFailure(extract, units, 0);
        Failure(e)
      case Success(structs) =>
        match Pool(extract, units[1..])
        case Failure(e) =>
          var i :| FirstFailure(extract, units[1..], i) && e == extract(units[1..][i]).error;
          assert FirstFailure(extract, units, i + 1);
          Failure(e)
        case Success(rest) => Success(structs + rest)
  }

  /** Pooling two groups of files succeeds exactly when pooling each does. */
  lemma PoolAppendSuccess<U>(extract: U -> Result<seq<Struct>, Error>, a: seq<U>, b: seq<U>)
    ensures Pool(extract, a + b).Success? <==> Pool(extract, a).Success? && Pool(extract, b).Success?
  {
    var ab := a + b;
    if Pool(extract, a).Success? && Pool(extract, b).Success? {
      forall i | 0 <= i < |ab| ensures extract(ab[i]).Success? {
        if i < |a| { assert ab[i] == a[i]; } else { assert ab[i] == b[i - |a|]; }
      }
    }
    if Pool(extract, ab).Success? {
      forall i | 0 <= i < |a| ensures extract(a[i]).Success? {
        assert ab[i] == a[i];
      }
      forall i | 0 <= i < |b| ensures extract(b[i]).Success? {
        assert ab[|a| + i] == b[i];
      }
    }
  }

  /** Pooling two groups of files pools their structs, in order. */
  lemma {:induction false} PoolAppend<U>(extract: U -> Result<seq<Struct>, Error>, a: seq<U>, b: seq<U>)
    ensures Pool(extract, a + b).Success? <==> Pool(extract, a).Success? && Pool(extract, b).Success?
    ensures Pool(extract, a + b).Success? ==>
      Pool(extract, a + b).value == Pool(extract, a).value + Pool(extract, b).value
    decreases |a|
  {
    PoolAppendSuccess(extract, a, b);
    if a == [] {
      assert a + b == b;
    } else {
      assert (a + b)[0] == a[0];
      assert (a + b)[1..] == a[1..] + b;
      PoolAppend(extract, a[1..], b);
    }
  }

  /** Pooling one file yields that file's result. */
  lemma PoolSingle<U>(extract: U -> Result<seq<Struct>, Error>, u: U)
    ensures Pool(extract, [u]) == extract(u)
  {
    assert [u][1..] == [];
    match extract(u)
    case Failure(e) =>
    case Success(structs) =>
      assert structs + [] == structs;
  }

  /** How `process` extracts one file. */
  function Extractor(libs: Libraries): SourceUnit -> Result<seq<Struct>, Error> {
    u => ParseFile(libs, u)
  }

  /** The loop over the input files of `process`: the structs of every file,
      concatenated in file order. One failing file aborts the whole run with
      its error, and it is the first failing file that is reported. */
  function ExtractAll(libs: Libraries, units: seq<SourceUnit>): (r: Result<seq<Struct>, Error>)
    ensures r.Success? <==> forall i :: 0 <= i < |units| ==> ParseFile(libs, units[i]).Success?
    ensures r.Failure? ==>
      exists i :: FirstFailure(Extractor(libs), units, i) && r.error == ParseFile(libs, units[i]).error
  {
    Pool(Extractor(libs), units)
  }

  /** Pooling two groups of files pools their structs, in order. */
  lemma ExtractAllAppend(libs: Libraries, a: seq<SourceUnit>, b: seq<SourceUnit>)
    ensures ExtractAll(libs, a + b).Success? <==>
      ExtractAll(libs, a).Success? && ExtractAll(libs, b).Success?
    ensures ExtractAll(libs, a + b).Success? ==>
      ExtractAll(libs, a + b).value == ExtractAll(libs, a).value + ExtractAll(libs, b).value
  {
    PoolAppend(Extractor(libs), a, b);
  }

  /** Pooling one file yields that file's structs. */
  lemma ExtractAllSingle(libs: Libraries, u: SourceUnit)
    ensures ExtractAll(libs, [u]) == ParseFile(libs, u)
  {
    PoolSingle(Extractor(libs), u);
  }

  // ---------------------------------------------------------------------------
  // The document
  // ---------------------------------------------------------------------------

  /** `process` up to serialisation: the document holds exactly the pooled
      structs, sorted by key, and always names "go" as its source kind. */
  function Process(libs: Libraries, kind: string, units: seq<SourceUnit>): (r: Result<FileContent, Error>)
    ensures r.Success? <==> forall i :: 0 <= i < |units| ==> ParseFile(libs, units[i]).Success?
    ensures r.Failure? ==> r.error == ExtractAll(libs, units).error
    ensures r.Success? ==>
      && r.value.kind == kind
      && r.value.srcKind == "go"
      && SortedByKey(r.value.data)
      && multiset(r.value.data) == multiset(ExtractAll(libs, units).value)
  {
    match ExtractAll(libs, units)
    case Failure(e) => Failure(e)
    case Success(structs) =>
      var data := SortByKey(structs);
      AdjacentIsSorted(data);
      Success(FileContent(kind, SourceKind, data))
  }

  // ---------------------------------------------------------------------------
  // Independence of the input order
  // ---------------------------------------------------------------------------

  /** Permuting structs permutes their keys. */
  lemma {:induction false} KeysPermutation(a: seq<Struct>, b: seq<Struct>)
    requires multiset(a) == multiset(b)
    ensures multiset(Keys(a)) == multiset(Keys(b))
    decreases |a|
  {
    if a == [] {
      assert |b| == |multiset(b)| == 0;
    } else {
      var x := a[0];
      assert x in multiset(b);
      var j :| 0 <= j < |b| && b[j] == x;
      var rest := b[..j] + b[j + 1..];
      assert b == b[..j] + [x] + b[j + 1..];
      assert a == [x] + a[1..];
      RemoveOne(a, b, j);
      KeysPermutation(a[1..], rest);
      KeysAppend(b[..j] + [x], b[j + 1..]);
      KeysAppend(b[..j], [x]);
      KeysAppend(b[..j], b[j + 1..]);
      KeysAppend([x], a[1..]);
    }
  }

  /** The head of a sorted sequence is no greater than any of its elements. */
  lemma SortedHeadLeast(k: seq<string>, x: string)
    requires SortedStrings(k) && x in multiset(k)
    ensures LessEq(k[0], x)
  {
    var i :| 0 <= i < |k| && k[i] == x;
    if i == 0 {
      LessIrreflexive(x);
    }
  }

  lemma SortedTail(k: seq<string>)
    requires SortedStrings(k) && |k| > 0
    ensures SortedStrings(k[1..])
  {
    forall i, j | 0 <= i < j < |k| - 1
      ensures LessEq(k[1..][i], k[1..][j])
    {
      assert k[1..][i] == k[i + 1] && k[1..][j] == k[j + 1];
    }
  }

  /** Two sorted arrangements of one non-empty multiset start alike and
      leave the same rest. */
  lemma SortedHeads(a: seq<string>, b: seq<string>)
    requires SortedStrings(a) && SortedStrings(b)
    requires multiset(a) == multiset(b) && a != []
    ensures b != [] && a[0] == b[0] && multiset(a[1..]) == multiset(b[1..])
  {
    assert |b| == |multiset(b)| == |multiset(a)| == |a|;
    assert a[0] in multiset(a) && b[0] in multiset(b);
    SortedHeadLeast(a, b[0]);
    SortedHeadLeast(b, a[0]);
    LessEqAntisymmetric(a[0], b[0]);
    RemoveOne(a, b, 0);
    assert b[..0] + b[1..] == b[1..];
  }

  /** A multiset of strings has only one sorted arrangement. */
  lemma {:induction false} SortedStringsUnique(a: seq<string>, b: seq<string>)
    requires SortedStrings(a) && SortedStrings(b)
    requires multiset(a) == multiset(b)
    ensures a == b
    decreases |a|
  {
    if a == [] {
      assert |b| == |multiset(b)| == 0;
    } else {
      SortedHeads(a, b);
      SortedTail(a);
      SortedTail(b);
      SortedStringsUnique(a[1..], b[1..]);
      assert a == [a[0]] + a[1..] && b == [b[0]] + b[1..];
    }
  }

  /** Moving one file to the front changes only the order of the pooled structs. */
  lemma MoveToFront<U>(extract: U -> Result<seq<Struct>, Error>, pre: seq<U>, u: U, post: seq<U>)
    ensures Pool(extract, pre + ([u] + post)).Success? <==> Pool(extract, [u] + (pre + post)).Success?
    ensures Pool(extract, pre + ([u] + post)).Success? ==>
      multiset(Pool(extract, pre + ([u] + post)).value) == multiset(Pool(extract, [u] + (pre + post)).value)
  {
    PoolAppend(extract, pre, [u] + post);
    PoolAppend(extract, [u], post);
    PoolAppend(extract, pre, post);
    PoolAppend(extract, [u], pre + post);
    if Pool(extract, pre + ([u] + post)).Success? {
      var p, m, q := Pool(extract, pre).value, Pool(extract, [u]).value, Pool(extract, post).value;
      assert Pool(extract, pre + ([u] + post)).value == p + (m + q);
      assert Pool(extract, [u] + (pre + post)).value == m + (p + q);
    }
  }

  /** Pooling a permutation of the files pools a permutation of the structs. */
  lemma {:induction false} PoolPermutation<U>(extract: U -> Result<seq<Struct>, Error>, us: seq<U>, vs: seq<U>)
    requires multiset(us) == multiset(vs)
    ensures Pool(extract, us).Success? <==> Pool(extract, vs).Success?
    ensures Pool(extract, us).Success? ==>
      multiset(Pool(extract, us).value) == multiset(Pool(extract, vs).value)
    decreases |us|
  {
    if us == [] {
      assert |vs| == |multiset(vs)| == 0;
    } else {
      var u := us[0];
      assert u in multiset(vs);
      var j :| 0 <= j < |vs| && vs[j] == u;
      var pre, post := vs[..j], vs[j + 1..];
      assert vs == pre + ([u] + post);
      assert us == [u] + us[1..];
      RemoveOne(us, vs, j);
      PoolPermutation(extract, us[1..], pre + post);
      MoveToFront(extract, pre, u, post);
      PoolAppend(extract, [u], us[1..]);
      PoolAppend(extract, [u], pre + post);
    }
  }

  /** Pooling the files in another order succeeds or fails alike and pools
      the same structs. */
  lemma ExtractAllPermutation(libs: Libraries, us: seq<SourceUnit>, vs: seq<SourceUnit>)
    requires multiset(us) == multiset(vs)
    ensures ExtractAll(libs, us).Success? <==> ExtractAll(libs, vs).Success?
    ensures ExtractAll(libs, us).Success? ==>
      multiset(ExtractAll(libs, us).value) == multiset(ExtractAll(libs, vs).value)
  {
    PoolPermutation(Extractor(libs), us, vs);
  }

  /** Taking the first element out of one side and a matching one out of the other. */
  lemma RemoveOne<T>(us: seq<T>, vs: seq<T>, j: int)
    requires multiset(us) == multiset(vs)
    requires |us| > 0 && 0 <= j < |vs| && vs[j] == us[0]
    ensures multiset(us[1..]) == multiset(vs[..j] + vs[j + 1..])
  {
    assert us == [us[0]] + us[1..];
    assert vs == vs[..j] + [vs[j]] + vs[j + 1..];
    var x := us[0];
    var rest, others := multiset(us[1..]), multiset(vs[..j] + vs[j + 1..]);
    assert multiset(us) == rest + multiset{x};
    assert multiset(vs) == others + multiset{x};
    assert rest == multiset(us) - multiset{x};
    assert others == multiset(vs) - multiset{x};
  }

  /** The order of the input files does not matter: a permutation of the
      files succeeds or fails alike, and yields the same keys in the same
      order. */
  lemma ProcessOrderIndependent(libs: Libraries, kind: string, us: seq<SourceUnit>, vs: seq<SourceUnit>)
    requires multiset(us) == multiset(vs)
    ensures Process(libs, kind, us).Success? <==> Process(libs, kind, vs).Success?
    ensures Process(libs, kind, us).Success? ==>
      Keys(Process(libs, kind, us).value.data) == Keys(Process(libs, kind, vs).value.data)
  {
    ExtractAllPermutation(libs, us, vs);
    if Process(libs, kind, us).Success? {
      var a := Process(libs, kind, us).value.data;
      var b := Process(libs, kind, vs).value.data;
      assert multiset(a) == multiset(b);
      KeysPermutation(a, b);
      SortedStringsUnique(Keys(a), Keys(b));
    }
  }
}
