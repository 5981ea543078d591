/** The names of the DOM-query helpers: the asynchronous `find[All]By<Accessor>`
    queries, which return a promise, and the synchronous `get`/`query` ones. */
module QueryNames {
  import opened Wrappers
  import opened Strings

  /** The accessor suffixes a query name may end in. */
  const Accessors: set<string> :=
    {"LabelText", "PlaceholderText", "Text", "AltText", "Title", "DisplayValue", "Role", "TestId"}

  /** `find` + optional `All` + `By` + accessor. */
  function AsyncQueryName(all: bool, accessor: string): string
  {
    "find" + (if all then "All" else "") + "By" + accessor
  }

  datatype SyncKind = Get | Query

  /** `get`/`query` + optional `All` + `By` + accessor. */
  function SyncQueryName(kind: SyncKind, all: bool, accessor: string): string
  {
    (if kind == Get then "get" else "query") + (if all then "All" else "") + "By" + accessor
  }

  /** Matches `By<Accessor>` at the start of `t`, to the end of `t`. */
  function ParseByAccessor(t: string, all: bool): (r: Option<(bool, string)>)
    ensures r.Some? ==> r.value.0 == all && r.value.1 in Accessors && t == "By" + r.value.1
    ensures r.None? ==> forall a :: a in Accessors ==> t != "By" + a
  {
    if |t| >= 2 && t[..2] == "By" && t[2..] in Accessors then
      assert t == "By" + t[2..];
      Some((all, t[2..]))
    else
      None
  }

  /** A name that does not start with `find` is no async name. */
  lemma NotFindPrefixed(s: string)
    requires !(|s| >= 4 && s[..4] == "find")
    ensures forall all: bool, a :: s != AsyncQueryName(all, a)
  {
    forall all: bool, a
      ensures s != AsyncQueryName(all, a)
    {
      var n := AsyncQueryName(all, a);
      assert n == "find" + ((if all then "All" else "") + "By" + a);
      assert n[..4] == "find";
    }
  }

  /** `find` + `rest`, with `rest` starting with `All`, differs from every
      async name whose tail after `All` is not the tail of `rest`. */
  lemma NotAllVariantAt(s: string, rest: string, all: bool, a: string)
    requires s == "find" + rest && |rest| >= 3 && rest[..3] == "All"
    requires rest[3..] != "By" + a
    ensures s != AsyncQueryName(all, a)
  {
    var n := AsyncQueryName(all, a);
    assert s[4..] == rest;
    if all {
      assert n == "find" + "All" + ("By" + a);
      assert n[7..] == "By" + a;
      assert s[7..] == rest[3..];
    } else {
      assert n == "find" + ("By" + a);
      assert n[4] == 'B';
      assert s[4] == rest[..3][0] == 'A';
    }
  }

  /** `find` + `rest` is no async name when `rest` starts with `All` and what
      follows is not `By<Accessor>`. */
  lemma NotAllVariant(s: string, rest: string)
    requires s == "find" + rest && |rest| >= 3 && rest[..3] == "All"
    requires forall a :: a in Accessors ==> rest[3..] != "By" + a
    ensures forall all: bool, a :: a in Accessors ==> s != AsyncQueryName(all, a)
  {
    forall all: bool, a | a in Accessors
      ensures s != AsyncQueryName(all, a)
    {
      NotAllVariantAt(s, rest, all, a);
    }
  }

  /** `find` + `rest`, with `rest` not starting with `All`, differs from every
      `All` name and from the plain name whose tail is not `rest`. */
  lemma NotPlainVariantAt(s: string, rest: string, all: bool, a: string)
    requires s == "find" + rest && !(|rest| >= 3 && rest[..3] == "All")
    requires rest != "By" + a
    ensures s != AsyncQueryName(all, a)
  {
    var n := AsyncQueryName(all, a);
    assert s[4..] == rest;
    if all {
      assert n == "find" + ("All" + ("By" + a));
      assert n[4..] == "All" + ("By" + a);
      assert n[4..][..3] == "All";
    } else {
      assert n == "find" + ("By" + a);
      assert n[4..] == "By" + a;
    }
  }

  /** `find` + `rest` is no async name when `rest` does not start with `All`
      and is not `By<Accessor>`. */
  lemma NotPlainVariant(s: string, rest: string)
    requires s == "find" + rest && !(|rest| >= 3 && rest[..3] == "All")
    requires forall a :: a in Accessors ==> rest != "By" + a
    ensures forall all: bool, a :: a in Accessors ==> s != AsyncQueryName(all, a)
  {
    forall all: bool, a | a in Accessors
      ensures s != AsyncQueryName(all, a)
    {
      NotPlainVariantAt(s, rest, all, a);
    }
  }

  /** The regular expression
      `^find(All)?By(LabelText|PlaceholderText|Text|AltText|Title|DisplayValue|Role|TestId)$`
      as an explicit decomposition: on success, whether `All` was present and
      which accessor ended the name. */
  function ParseAsyncQuery(s: string): (r: Option<(bool, string)>)
    ensures r.Some? ==> r.value.1 in Accessors && s == AsyncQueryName(r.value.0, r.value.1)
    ensures r.None? ==> forall all: bool, a :: a in Accessors ==> s != AsyncQueryName(all, a)
  {
    if |s| >= 4 && s[..4] == "find" then
      var rest := s[4..];
      assert s == "find" + rest;
      if |rest| >= 3 && rest[..3] == "All" then
        var r := ParseByAccessor(rest[3..], true);
        if r.None? then
          NotAllVariant(s, rest);
          r
        else
          assert rest == "All" + rest[3..];
          r
      else
        var r := ParseByAccessor(rest, false);
        if r.None? then
          NotPlainVariant(s, rest);
          r
        else
          r
    else
      NotFindPrefixed(s);
      None
  }

  predicate IsAsyncQueryName(s: string)
  {
    ParseAsyncQuery(s).Some?
  }

  /** A name is an async query name exactly when it is built from an optional
      `All` and one of the accessors. */
  lemma AsyncQueryNameIff(s: string)
    ensures IsAsyncQueryName(s) <==> exists all: bool, a :: a in Accessors && s == AsyncQueryName(all, a)
  {
    if IsAsyncQueryName(s) {
      var r := ParseAsyncQuery(s).value;
      assert r.1 in Accessors && s == AsyncQueryName(r.0, r.1);
    }
  }

  /** Parsing a built name gives back its parts. */
  lemma ParseAsyncQueryName(all: bool, a: string)
    requires a in Accessors
    ensures ParseAsyncQuery(AsyncQueryName(all, a)) == Some((all, a))
  {
    var s := AsyncQueryName(all, a);
    var r := ParseAsyncQuery(s);
    assert r.Some?;
    assert AsyncQueryName(r.value.0, r.value.1)[4] == (if r.value.0 then 'A' else 'B');
    assert s[4] == (if all then 'A' else 'B');
    assert |r.value.1| == |a|;
    assert r.value.1 == s[|s| - |a|..] == a;
  }

  /** `AltText`, the one accessor with a capital `A`, does not contain `All`. */
  lemma AltTextHasNoAll(k: int)
    ensures !OccursAt("AltText", "All", k)
  {
    var a := "AltText";
    if 0 <= k && k + 3 <= |a| {
      if k == 0 {
        assert a[k..k + 3][2] == a[2] == 't';
      } else {
        assert a[k..k + 3][0] == a[k] == a[1..][k - 1];
        assert a[1..] == "ltText";
      }
    }
  }

  /** No accessor contains the text `All`. */
  lemma AccessorHasNoAll(a: string, k: int)
    requires a in Accessors
    ensures !OccursAt(a, "All", k)
  {
    if a == "AltText" {
      AltTextHasNoAll(k);
    } else {
      assert 'A' !in a;
      NoOccurrenceWithoutFirstChar(a, "All", k);
    }
  }

  /** A synchronous name without `All` does not contain it anywhere. */
  lemma PlainSyncQueryNameHasNoAll(kind: SyncKind, a: string)
    requires a in Accessors
    ensures !Contains(SyncQueryName(kind, false, a), "All")
  {
    var x := (if kind == Get then "get" else "query") + "By";
    var s := SyncQueryName(kind, false, a);
    assert s == x + a;
    assert 'A' !in x;
    forall k | 0 <= k <= |s| - 3
      ensures !OccursAt(s, "All", k)
    {
      if OccursAt(x + a, "All", k) {
        OccurrenceAfterPrefix(x, a, "All", k);
        AccessorHasNoAll(a, k - |x|);
      }
    }
  }

  /** A synchronous query name contains `All` exactly when it is an `All` variant. */
  lemma SyncQueryNameContainsAll(kind: SyncKind, all: bool, a: string)
    requires a in Accessors
    ensures Contains(SyncQueryName(kind, all, a), "All") <==> all
  {
    if all {
      var p := (if kind == Get then "get" else "query") + "All";
      assert SyncQueryName(kind, all, a) == p + "By" + a;
      assert OccursAt(SyncQueryName(kind, all, a), "All", |p| - 3);
    } else {
      PlainSyncQueryNameHasNoAll(kind, a);
    }
  }

  /** Splitting a synchronous query name on `By` gives its accessor as the second field. */
  lemma SyncQueryNameAccessor(kind: SyncKind, all: bool, a: string)
    requires a in Accessors
    ensures SecondField(SyncQueryName(kind, all, a), "By") == Some(a)
  {
    var p := (if kind == Get then "get" else "query") + (if all then "All" else "");
    assert SyncQueryName(kind, all, a) == p + "By" + a;
    assert 'B' !in a;
    SecondFieldOfJoined(p, "By", a);
  }
}
