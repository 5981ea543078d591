/** Concrete programs from the rules' documented behaviour, run through the
    model. Source texts of literal arguments come from the `getText` given. */
module Scenarios {
  import opened Wrappers
  import opened Strings
  import opened Ast
  import opened QueryNames
  import opened AwaitAsyncQuery
  import opened PreferFindBy

  const Program: Node := Other("Program", [])
  const LiteralX: Node := Other("Literal", [])
  const FindByTextCall: Node := Call(Ident("findByText"), [LiteralX])

  lemma FindByTextIsAsync()
    ensures AsyncQueryName(false, "Text") == "findByText"
    ensures IsAsyncQueryName("findByText")
  {
    ParseAsyncQueryName(false, "Text");
    assert AsyncQueryName(false, "Text") == "findByText";
  }

  lemma SpelledNames()
    ensures SyncQueryName(Get, false, "Text") == "getByText"
    ensures SyncQueryName(Get, true, "Role") == "getAllByRole"
    ensures AsyncQueryName(true, "Role") == "findAllByRole"
    ensures CallerPrefix(Some("screen")) + "findByText" + "(" + "'x'" + ")" == "screen.findByText('x')"
    ensures CallerPrefix(None) + "findAllByRole" + "(" + "'button'" + ")" == "findAllByRole('button')"
  {
  }

  /** `xfindByText`, `findByFoo` and `getByText` are not async query names. */
  lemma NonAsyncNames()
    ensures !IsAsyncQueryName("xfindByText")
    ensures !IsAsyncQueryName("findByFoo")
    ensures !IsAsyncQueryName("getByText")
  {
    assert "xfindByText"[..4][0] == 'x';
    assert "findByFoo"[..4] == "find" && "findByFoo"[4..] == "ByFoo";
    assert "ByFoo"[2..] == "Foo";
    assert "getByText"[..4][0] == 'g';
  }

  /** `await findByText('x')` is handled at the grandparent. */
  lemma AwaitedCallIsNotSuspect()
    ensures IsQueryIdentifier([Ident("findByText"), FindByTextCall, Await(FindByTextCall), Program])
    ensures !Suspect([Ident("findByText"), FindByTextCall, Await(FindByTextCall), Program])
  {
    FindByTextIsAsync();
  }

  /** `findByText('x').then(cb)` is handled by the `.then` chain. */
  lemma ThenChainedCallIsNotSuspect()
    ensures !Suspect([Ident("findByText"), FindByTextCall,
                      Member(FindByTextCall, Ident("then")), Program])
  {
  }

  /** `expect(findByText('x')).resolves.toBe(1)`: the nearest `expect` call sits
      two levels up and is followed by `.resolves`. */
  lemma ExpectResolvesIsNotSuspect()
    ensures var expectCall := Call(Ident("expect"), [FindByTextCall]);
            var resolves := Member(expectCall, Ident("resolves"));
            var toBe := Member(resolves, Ident("toBe"));
            !Suspect([Ident("findByText"), FindByTextCall, expectCall, resolves, toBe,
                      Call(toBe, [LiteralX]), Program])
  {
    var expectCall := Call(Ident("expect"), [FindByTextCall]);
    var resolves := Member(expectCall, Ident("resolves"));
    var toBe := Member(resolves, Ident("toBe"));
    var p: Path := [Ident("findByText"), FindByTextCall, expectCall, resolves, toBe,
                    Call(toBe, [LiteralX]), Program];
    assert p[1..][1..] == p[2..];
    assert HasClosestExpectResolvesRejects(p[2..]);
    assert HasClosestExpectResolvesRejects(p[1..]);
  }

  /** A call initialising a declaration directly under the program has no
      enclosing `expect`. */
  lemma NotUnderExpect(decl: Node)
    requires decl.VarDeclarator?
    ensures !HasClosestExpectResolvesRejects([Ident("findByText"), FindByTextCall, decl, Program])
  {
    var p: Path := [Ident("findByText"), FindByTextCall, decl, Program];
    assert p[1..][1..] == p[2..] && p[2..][1..] == p[3..];
    assert !HasClosestExpectResolvesRejects(p[3..]);
    assert !HasClosestExpectResolvesRejects(p[2..]);
    assert !HasClosestExpectResolvesRejects(p[1..]);
  }

  /** A program with one visited site that is suspect and reported gives
      exactly that site's report. */
  lemma LoneSiteReport(site: Site)
    requires IsQueryIdentifier(site.ident) && Suspect(site.ident) && ReportsSite(site)
    ensures Reported(Accumulate([site])) == [DiagnosticFor(site)]
  {
    assert Accumulate([site]) == [] + [site];
    ReportedAppend([], site);
  }

  /** `const el = findByText('x'); use(el)`: the one later reference is a
      plain argument, so the call is reported once, at `findByText`. */
  lemma UnawaitedVariableIsReported()
    ensures var decl := VarDeclarator(Ident("el"), Some(FindByTextCall));
            var use := Call(Ident("use"), [Ident("el")]);
            var site := Site([Ident("findByText"), FindByTextCall, decl, Program],
                             [[Ident("el"), decl, Program], [Ident("el"), use, Program]]);
            IsQueryIdentifier(site.ident)
            && Reported(Accumulate([site])) == [Diagnostic(site.ident, "awaitAsyncQuery", "findByText")]
  {
    FindByTextIsAsync();
    var decl := VarDeclarator(Ident("el"), Some(FindByTextCall));
    var use := Call(Ident("use"), [Ident("el")]);
    var site := Site([Ident("findByText"), FindByTextCall, decl, Program],
                     [[Ident("el"), decl, Program], [Ident("el"), use, Program]]);
    NotUnderExpect(decl);
    assert Suspect(site.ident);
    assert IsUnsafeReference(DeferredReferences(site)[0]);
    assert ReportsSite(site);
    LoneSiteReport(site);
  }

  /** The same declaration referenced twice, first awaited and then not: still
      exactly one report, anchored at the original call. */
  lemma SecondReferenceUnawaitedReportsOnce()
    ensures var decl := VarDeclarator(Ident("el"), Some(FindByTextCall));
            var awaited := Await(Ident("el"));
            var use := Call(Ident("use"), [Ident("el")]);
            var site := Site([Ident("findByText"), FindByTextCall, decl, Program],
                             [[Ident("el"), decl, Program], [Ident("el"), awaited, Program],
                              [Ident("el"), use, Program]]);
            IsQueryIdentifier(site.ident) &&
            Reported(Accumulate([site])) == [Diagnostic(site.ident, "awaitAsyncQuery", "findByText")]
  {
    FindByTextIsAsync();
    var decl := VarDeclarator(Ident("el"), Some(FindByTextCall));
    var use := Call(Ident("use"), [Ident("el")]);
    var site := Site([Ident("findByText"), FindByTextCall, decl, Program],
                     [[Ident("el"), decl, Program], [Ident("el"), Await(Ident("el")), Program],
                      [Ident("el"), use, Program]]);
    NotUnderExpect(decl);
    assert Suspect(site.ident);
    assert IsUnsafeReference(DeferredReferences(site)[1]);
    assert ReportsSite(site);
    LoneSiteReport(site);
  }

  /** `await waitFor(() => screen.getByText('x'))` suggests `screen.findByText('x')`. */
  lemma MemberWaitSuggestsFindBy(syncQueries: set<string>, getText: Node -> string)
    requires "getByText" in syncQueries && getText(LiteralX) == "'x'"
    ensures var call := Call(Ident("waitFor"),
                             [ArrowFn([], Call(Member(Ident("screen"), Ident("getByText")), [LiteralX]))]);
            var r := Check([call, Await(call), Program], syncQueries, getText);
            r.Some? && r.value.replacement == "screen.findByText('x')"
            && r.value.queryVariant == "findBy" && r.value.queryMethod == Some("Text")
  {
    var call := Call(Ident("waitFor"),
                     [ArrowFn([], Call(Member(Ident("screen"), Ident("getByText")), [LiteralX]))]);
    MemberShapeMatches("waitFor", [], "screen", "getByText", [LiteralX], [], syncQueries);
    SpelledNames();
    FindByTextIsAsync();
    CheckRewritesSyncQuery([call, Await(call), Program], syncQueries, getText, Get, false, "Text");
    assert ArgumentsText([LiteralX], getText) == "'x'";
  }

  /** `await waitFor(() => getAllByRole('button'))` suggests `findAllByRole('button')`. */
  lemma BareWaitSuggestsFindAllBy(syncQueries: set<string>, getText: Node -> string)
    requires "getAllByRole" in syncQueries && getText(LiteralX) == "'button'"
    ensures var call := Call(Ident("waitFor"), [ArrowFn([], Call(Ident("getAllByRole"), [LiteralX]))]);
            var r := Check([call, Await(call), Program], syncQueries, getText);
            r.Some? && r.value.replacement == "findAllByRole('button')"
  {
    var call := Call(Ident("waitFor"), [ArrowFn([], Call(Ident("getAllByRole"), [LiteralX]))]);
    BareShapeMatches("waitFor", [], "getAllByRole", [LiteralX], [], syncQueries);
    SpelledNames();
    CheckRewritesSyncQuery([call, Await(call), Program], syncQueries, getText, Get, true, "Role");
    assert ArgumentsText([LiteralX], getText) == "'button'";
  }

  /** `await waitFor(() => { return screen.getByText('x') })`: a block body is not matched. */
  lemma BlockBodyIsNotMatched(syncQueries: set<string>, getText: Node -> string)
    ensures var inner := Call(Member(Ident("screen"), Ident("getByText")), [LiteralX]);
            var block := Other("BlockStatement", [Return(Some(inner))]);
            var call := Call(Ident("waitFor"), [ArrowFn([], block)]);
            Check([call, Await(call), Program], syncQueries, getText).None?
  {
  }

  /** `waitFor(() => getByText('x'))` without `await` is not matched by the
      selector, so it gives no report even though the shape matches. */
  lemma UnawaitedWaitIsNotReported(syncQueries: set<string>, getText: Node -> string)
    requires "getByText" in syncQueries
    ensures var call := Call(Ident("waitFor"), [ArrowFn([], Call(Ident("getByText"), [LiteralX]))]);
            MatchWaitCall(call, syncQueries).Some?
            && Check([call, Other("ExpressionStatement", [call]), Program], syncQueries, getText).None?
  {
  }
}
