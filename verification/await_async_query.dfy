/** The `await-async-query` rule: a call to an asynchronous `find*` query whose
    promise is neither awaited, returned, chained with `.then` nor asserted on
    through `expect(...).resolves/rejects` is reported. Sites are collected
    while the tree is visited and decided once the whole program has been seen,
    because a later reference to the variable holding the promise may await it. */
module AwaitAsyncQuery {
  import opened Wrappers
  import opened Ast
  import opened QueryNames

  /** Node types under which a promise counts as handled. */
  const ValidParents: seq<string> := ["AwaitExpression", "ArrowFunctionExpression", "ReturnStatement"]

  /** `isAwaited`: the node is an `await`, an arrow function (whose expression
      body is returned) or a `return` statement. */
  function IsAwaited(n: Node): (r: bool)
    ensures TagConsistent(n) ==> (r <==> n.Await? || n.ArrowFn? || n.Return?)
  {
    TypeName(n) in ValidParents
  }

  /** `isPromiseResolved`: the value is chained with `.then`, either directly
      (`promise.then`) or through the call it is the callee of
      (`findByText(...).then`). */
  function IsPromiseResolved(p: Path): bool
  {
    var parent := Parent(p);
    if IsCallExpression(parent) then HasThenProperty(Grandparent(p))
    else HasThenProperty(parent)
  }

  /** The two cases of `IsPromiseResolved`: below a call only the grandparent
      matters, otherwise only the parent; neither the node itself nor any
      ancestor above its grandparent is looked at. */
  lemma PromiseResolvedCases(p: Path, x: Node)
    ensures |p| > 1 && p[1].Call? ==>
      (IsPromiseResolved(p) <==> |p| > 2 && p[2].Member? && p[2].property == Ident("then"))
    ensures !(|p| > 1 && p[1].Call?) ==>
      (IsPromiseResolved(p) <==> |p| > 1 && p[1].Member? && p[1].property == Ident("then"))
    ensures IsPromiseResolved(p) == IsPromiseResolved([x] + p[1..if |p| < 3 then |p| else 3])
  {
  }

  /** A call `expect(...)`. */
  predicate IsExpectCall(n: Node)
  {
    n.Call? && n.callee.Ident? && n.callee.name == "expect"
  }

  /** The identifier `resolves` or `rejects`. */
  predicate IsResolvesOrRejects(n: Node)
  {
    n.Ident? && (n.name == "resolves" || n.name == "rejects")
  }

  /** `hasClosestExpectResolvesRejects`: walks up from the node until it meets
      an `expect(...)` call that is the object of a member expression, and
      answers whether that member accesses `resolves` or `rejects`. A node
      without a parent is never examined and answers false. */
  function HasClosestExpectResolvesRejects(p: Path): (r: bool)
    ensures |p| == 1 ==> !r
    decreases |p|
  {
    if |p| == 1 then false
    else if IsExpectCall(p[0]) && p[1].Member? then IsResolvesOrRejects(p[1].property)
    else HasClosestExpectResolvesRejects(p[1..])
  }

  /** Position `i` of the path is an `expect(...)` call whose parent is a member
      expression; the root, having no parent, never qualifies. */
  predicate ExpectAt(p: seq<Node>, i: int)
  {
    0 <= i < |p| - 1 && IsExpectCall(p[i]) && p[i + 1].Member?
  }

  /** Position `i` is the nearest such `expect(...)` call to the node. */
  predicate ClosestExpectAt(p: seq<Node>, i: int)
  {
    ExpectAt(p, i) && forall j :: 0 <= j < i ==> !ExpectAt(p, j)
  }

  /** Reference reading of the walk: the nearest `expect(...)` member access
      decides, and without one the answer is false. */
  ghost predicate ExpectResolvesRejectsSpec(p: seq<Node>)
  {
    exists i :: ClosestExpectAt(p, i) && IsResolvesOrRejects(p[i + 1].property)
  }

  lemma {:induction false} ClosestExpectMatchesSpec(p: Path)
    ensures HasClosestExpectResolvesRejects(p) <==> ExpectResolvesRejectsSpec(p)
    ensures (forall i :: !ExpectAt(p, i)) ==> !HasClosestExpectResolvesRejects(p)
    decreases |p|
  {
    if |p| == 1 {
    } else if ExpectAt(p, 0) {
      assert ClosestExpectAt(p, 0);
      if ExpectResolvesRejectsSpec(p) {
        var i :| ClosestExpectAt(p, i) && IsResolvesOrRejects(p[i + 1].property);
        assert i == 0;
      }
    } else {
      var t: Path := p[1..];
      ClosestExpectMatchesSpec(t);
      assert forall i :: ExpectAt(t, i) <==> ExpectAt(p, i + 1);
      if ExpectResolvesRejectsSpec(t) {
        var i :| ClosestExpectAt(t, i) && IsResolvesOrRejects(t[i + 1].property);
        forall j | 0 <= j < i + 1
          ensures !ExpectAt(p, j)
        {
          if j > 0 {
            assert !ExpectAt(t, j - 1);
          }
        }
        assert ClosestExpectAt(p, i + 1);
      }
      if ExpectResolvesRejectsSpec(p) {
        var i :| ClosestExpectAt(p, i) && IsResolvesOrRejects(p[i + 1].property);
        assert i > 0;
        assert ClosestExpectAt(t, i - 1);
      }
    }
  }

  /** The same walk as an explicit loop up the parent chain, which uses no
      call stack however deep the tree. */
  method FindClosestExpectResolvesRejects(p: Path) returns (found: bool)
    ensures found == HasClosestExpectResolvesRejects(p)
    ensures found <==> ExpectResolvesRejectsSpec(p)
  {
    ClosestExpectMatchesSpec(p);
    var i := 0;
    while i < |p| - 1
      invariant 0 <= i <= |p| - 1
      invariant HasClosestExpectResolvesRejects(p[i..]) == HasClosestExpectResolvesRejects(p)
    {
      if IsExpectCall(p[i]) && p[i + 1].Member? {
        return IsResolvesOrRejects(p[i + 1].property);
      }
      assert p[i..][1..] == p[i + 1..];
      i := i + 1;
    }
    return false;
  }

  /** A visited site: the ancestor path of an identifier matched by the selector
      `CallExpression > Identifier[name=...]`, and the references of the
      variable declared by its grandparent, as the scope manager lists them
      (the first being the declaration's own write). */
  datatype Site = Site(ident: Path, references: seq<ChildPath>)

  /** The selector matched: an identifier with an async query name whose parent
      is a call. A call expression is never the program root, so the
      identifier has a grandparent. */
  predicate IsQueryIdentifier(p: Path)
  {
    |p| >= 3 && p[0].Ident? && IsAsyncQueryName(p[0].name) && p[1].Call?
  }

  /** None of the collect-phase checks shows the promise handled. */
  predicate Suspect(p: Path)
    requires |p| >= 3
  {
    !IsAwaited(p[2]) && !IsPromiseResolved(p) && !HasClosestExpectResolvesRejects(p)
  }

  /** The collect handler: push the site unless one of the checks passes. */
  function Collect(acc: seq<Site>, s: Site): seq<Site>
    requires IsQueryIdentifier(s.ident)
  {
    if Suspect(s.ident) then acc + [s] else acc
  }

  /** The accumulator after visiting `visits` in order. */
  function Accumulate(visits: seq<Site>): (acc: seq<Site>)
    requires forall v :: v in visits ==> IsQueryIdentifier(v.ident)
    ensures |acc| <= |visits| && multiset(acc) <= multiset(visits)
    ensures forall s :: s in acc ==> s in visits && IsQueryIdentifier(s.ident) && Suspect(s.ident)
    ensures forall v :: v in visits && IsQueryIdentifier(v.ident) && Suspect(v.ident) ==> v in acc
  {
    if |visits| == 0 then []
    else
      assert visits == visits[..|visits| - 1] + [visits[|visits| - 1]];
      Collect(Accumulate(visits[..|visits| - 1]), visits[|visits| - 1])
  }

  /** `references.slice(1)` when the grandparent declares a variable, and no
      references otherwise. */
  function DeferredReferences(s: Site): seq<ChildPath>
    requires |s.ident| >= 3
  {
    if IsVariableDeclarator(Grandparent(s.ident)) then
      (if |s.references| == 0 then [] else s.references[1..])
    else []
  }

  /** A reference whose parent does not await it and which is not chained with `.then`. */
  predicate IsUnsafeReference(r: ChildPath)
  {
    !IsAwaited(r[1]) && !IsPromiseResolved(r)
  }

  /** The finalize decision for one site: with no deferred references, report
      when the site itself is neither awaited nor chained; otherwise report
      when some deferred reference is unsafe. */
  predicate ReportsSite(s: Site)
    requires |s.ident| >= 3
  {
    var refs := DeferredReferences(s);
    (|refs| == 0 && !IsAwaited(s.ident[2]) && !IsPromiseResolved(s.ident))
    || exists k :: 0 <= k < |refs| && IsUnsafeReference(refs[k])
  }

  datatype Diagnostic = Diagnostic(anchor: Path, messageId: string, name: string)

  /** The report for a site: anchored at the original identifier, naming it. */
  function DiagnosticFor(s: Site): Diagnostic
    requires s.ident[0].Ident?
  {
    Diagnostic(s.ident, "awaitAsyncQuery", s.ident[0].name)
  }

  /** The finalize handler for one accumulated site, with the reference scan
      that stops at the first unsafe reference. */
  method FinalizeSite(s: Site) returns (d: Option<Diagnostic>)
    requires IsQueryIdentifier(s.ident)
    ensures d.Some? <==> ReportsSite(s)
    ensures d.Some? ==> d.value == DiagnosticFor(s)
  {
    var refs := DeferredReferences(s);
    if |refs| == 0 && !IsAwaited(s.ident[2]) && !IsPromiseResolved(s.ident) {
      d := Some(DiagnosticFor(s));
    } else {
      d := None;
      var i := 0;
      while i < |refs|
        invariant 0 <= i <= |refs|
        invariant forall k :: 0 <= k < i ==> !IsUnsafeReference(refs[k])
      {
        if IsUnsafeReference(refs[i]) {
          d := Some(DiagnosticFor(s));
          break;
        }
        i := i + 1;
      }
    }
  }

  /** The report each of `sites` would get, in order. */
  ghost function AllDiagnostics(sites: seq<Site>): seq<Diagnostic>
    requires forall s :: s in sites ==> IsQueryIdentifier(s.ident)
  {
    if |sites| == 0 then []
    else
      assert sites[0] in sites;
      assert IsQueryIdentifier(sites[0].ident);
      [DiagnosticFor(sites[0])] + AllDiagnostics(sites[1..])
  }

  lemma AllDiagnosticsSnoc(sites: seq<Site>, s: Site)
    requires forall x :: x in sites + [s] ==> IsQueryIdentifier(x.ident)
    ensures AllDiagnostics(sites + [s]) == AllDiagnostics(sites) + [DiagnosticFor(s)]
    decreases |sites|
  {
    if |sites| > 0 {
      assert (sites + [s])[1..] == sites[1..] + [s];
      AllDiagnosticsSnoc(sites[1..], s);
    }
  }

  /** The reports finalize produces for `sites`, in order: one per reported
      site, so no diagnostic occurs more often than there are sites giving it. */
  ghost function Reported(sites: seq<Site>): (ds: seq<Diagnostic>)
    requires forall s :: s in sites ==> IsQueryIdentifier(s.ident)
    ensures |ds| <= |sites|
    ensures multiset(ds) <= multiset(AllDiagnostics(sites))
  {
    if |sites| == 0 then []
    else
      var last := sites[|sites| - 1];
      assert last in sites;
      assert IsQueryIdentifier(last.ident);
      assert |last.ident| >= 3;
      assert sites == sites[..|sites| - 1] + [last];
      AllDiagnosticsSnoc(sites[..|sites| - 1], last);
      Reported(sites[..|sites| - 1]) + (if ReportsSite(last) then [DiagnosticFor(last)] else [])
  }

  lemma {:induction false} ReportedContents(sites: seq<Site>)
    requires forall s :: s in sites ==> IsQueryIdentifier(s.ident)
    ensures forall d :: d in Reported(sites) <==>
      exists s :: s in sites && IsQueryIdentifier(s.ident) && ReportsSite(s) && d == DiagnosticFor(s)
    decreases |sites|
  {
    if |sites| > 0 {
      var init := sites[..|sites| - 1];
      var last := sites[|sites| - 1];
      ReportedContents(init);
      assert sites == init + [last];
      forall d | exists s :: s in sites && IsQueryIdentifier(s.ident) && ReportsSite(s) && d == DiagnosticFor(s)
        ensures d in Reported(sites)
      {
        var s :| s in sites && IsQueryIdentifier(s.ident) && ReportsSite(s) && d == DiagnosticFor(s);
        if s != last {
          assert s in init;
        }
      }
    }
  }

  /** The `Program:exit` handler: each accumulated site is decided once. */
  method Finalize(sites: seq<Site>) returns (ds: seq<Diagnostic>)
    requires forall s :: s in sites ==> IsQueryIdentifier(s.ident)
    ensures ds == Reported(sites)
  {
    ds := [];
    var i := 0;
    while i < |sites|
      invariant 0 <= i <= |sites|
      invariant ds == Reported(sites[..i])
    {
      assert sites[i] in sites;
      var d := FinalizeSite(sites[i]);
      ReportedSnoc(sites, i);
      if d.Some? {
        ds := ds + [d.value];
      }
      i := i + 1;
    }
    assert sites[..|sites|] == sites;
  }

  lemma ReportedSnoc(sites: seq<Site>, i: int)
    requires forall s :: s in sites ==> IsQueryIdentifier(s.ident)
    requires 0 <= i < |sites|
    ensures sites[i] in sites
    ensures Reported(sites[..i + 1]) == Reported(sites[..i])
      + (if ReportsSite(sites[i]) then [DiagnosticFor(sites[i])] else [])
  {
    assert sites[..i + 1][..i] == sites[..i];
  }

  /** A suspect site is reported when it has no deferred references, in
      particular whenever it is not a variable's initialiser; with deferred
      references it is reported exactly when one of them is unsafe. */
  lemma SuspectSiteOutcome(s: Site)
    requires IsQueryIdentifier(s.ident) && Suspect(s.ident)
    ensures !IsVariableDeclarator(Grandparent(s.ident)) ==> ReportsSite(s)
    ensures |s.references| <= 1 ==> ReportsSite(s)
    ensures |DeferredReferences(s)| > 0 ==>
      (ReportsSite(s) <==> exists k :: 0 <= k < |DeferredReferences(s)| && IsUnsafeReference(DeferredReferences(s)[k]))
  {
  }

  /** A one-pass reading of the rule: walk the visited sites in order and
      give each site the report finalize would give it, when none of the
      collect checks cleared it. At most one report per visited site. */
  ghost function SiteReports(visits: seq<Site>): (ds: seq<Diagnostic>)
    requires forall v :: v in visits ==> IsQueryIdentifier(v.ident)
    ensures multiset(ds) <= multiset(AllDiagnostics(visits))
  {
    if |visits| == 0 then []
    else
      var last := visits[|visits| - 1];
      assert last in visits;
      assert visits == visits[..|visits| - 1] + [last];
      AllDiagnosticsSnoc(visits[..|visits| - 1], last);
      SiteReports(visits[..|visits| - 1])
        + (if Suspect(last.ident) && ReportsSite(last) then [DiagnosticFor(last)] else [])
  }

  /** Collecting first and deciding at program exit gives the same reports, in
      the same order, as deciding each site when it is visited. */
  lemma {:induction false} TwoPhaseIsOnePass(visits: seq<Site>)
    requires forall v :: v in visits ==> IsQueryIdentifier(v.ident)
    ensures Reported(Accumulate(visits)) == SiteReports(visits)
    decreases |visits|
  {
    if |visits| > 0 {
      var init := visits[..|visits| - 1];
      var last := visits[|visits| - 1];
      assert last in visits;
      assert forall v :: v in init ==> v in visits;
      TwoPhaseIsOnePass(init);
      var acc := Accumulate(init);
      var tail := if Suspect(last.ident) && ReportsSite(last) then [DiagnosticFor(last)] else [];
      assert SiteReports(visits) == SiteReports(init) + tail;
      if Suspect(last.ident) {
        assert Accumulate(visits) == acc + [last];
        ReportedAppend(acc, last);
      } else {
        assert Accumulate(visits) == acc;
      }
    }
  }

  lemma ReportedAppend(sites: seq<Site>, s: Site)
    requires forall x :: x in sites ==> IsQueryIdentifier(x.ident)
    requires IsQueryIdentifier(s.ident)
    ensures forall x :: x in sites + [s] ==> IsQueryIdentifier(x.ident)
    ensures Reported(sites + [s]) == Reported(sites) + (if ReportsSite(s) then [DiagnosticFor(s)] else [])
  {
    assert (sites + [s])[..|sites|] == sites;
  }

  /** The whole rule over one file: collect while visiting, then finalize. Every
      report is anchored at a visited site that failed all three checks, every
      suspect site that finalize decides against is reported, and there are
      never more reports than sites. */
  method Run(visits: seq<Site>) returns (ds: seq<Diagnostic>)
    requires forall v :: v in visits ==> IsQueryIdentifier(v.ident)
    ensures |ds| <= |visits|
    ensures forall d :: d in ds <==>
      exists v :: v in visits && IsQueryIdentifier(v.ident) && Suspect(v.ident) && ReportsSite(v) && d == DiagnosticFor(v)
    ensures ds == SiteReports(visits)
    ensures multiset(ds) <= multiset(AllDiagnostics(visits))
  {
    var acc := Accumulate(visits);
    ds := Finalize(acc);
    ReportedContents(acc);
    TwoPhaseIsOnePass(visits);
  }
}
