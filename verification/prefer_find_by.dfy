/** The `prefer-find-by` rule: `await waitFor(() => [obj.]getByX(args))` is
    reported with a suggested rewrite to `[obj.]findByX(args)`. */
module PreferFindBy {
  import opened Wrappers
  import opened Strings
  import opened Ast
  import opened QueryNames
  import AwaitAsyncQuery

  /** The generic wait helpers the rule looks for. */
  const WaitMethods: seq<string> := ["waitFor", "waitForElement", "wait"]

  /** `getFindByQueryVariant`: the async prefix that matches a sync query name. */
  function GetFindByQueryVariant(queryMethod: string): string
  {
    if Contains(queryMethod, "All") then "findAllBy" else "findBy"
  }

  /** `queryMethod.split('By')[1]`. */
  function QueryMethodOf(methodCall: string): Option<string>
  {
    SecondField(methodCall, "By")
  }

  /** How a template literal renders a value that may be `undefined`. */
  function TemplateText(v: Option<string>): string
  {
    match v
    case Some(s) => s
    case None => "undefined"
  }

  /** The synchronous query wrapped by a matching wait call: the object it is
      called on (member shape) or `None` (bare shape), the method name, and
      the argument nodes of the inner call. */
  datatype InnerQuery = InnerQuery(caller: Option<string>, queryName: string, args: seq<Node>)

  /** The shape gate of the `AwaitExpression > CallExpression` handler. Only the
      first argument of the wait call is looked at, and the arrow function's
      parameters are never examined. The member shape is tried first. */
  function MatchWaitCall(call: Node, syncQueries: set<string>): (q: Option<InnerQuery>)
    requires call.Call?
    ensures q.Some? ==> call.callee.Ident? && call.callee.name in WaitMethods
    ensures q.Some? ==> |call.arguments| > 0 && call.arguments[0].ArrowFn? && call.arguments[0].body.Call?
    ensures q.Some? ==> q.value.queryName in syncQueries && q.value.args == call.arguments[0].body.arguments
    ensures q.Some? ==> (q.value.caller.Some? <==> call.arguments[0].body.callee.Member?)
    ensures q.Some? ==>
      var c := call.arguments[0].body.callee;
      if c.Member? then
        c.obj.Ident? && c.property.Ident? && q.value.caller == Some(c.obj.name) && q.value.queryName == c.property.name
      else
        c.Ident? && q.value.caller.None? && q.value.queryName == c.name
  {
    if !call.callee.Ident? || call.callee.name !in WaitMethods then None
    else if |call.arguments| == 0 || !call.arguments[0].ArrowFn? then None
    else
      var body := call.arguments[0].body;
      if !body.Call? then None
      else if body.callee.Member? && body.callee.property.Ident? && body.callee.obj.Ident?
        && body.callee.property.name in syncQueries then
        Some(InnerQuery(Some(body.callee.obj.name), body.callee.property.name, body.arguments))
      else if body.callee.Ident? && body.callee.name in syncQueries then
        Some(InnerQuery(None, body.callee.name, body.arguments))
      else None
  }

  /** A report of the rule: anchored at the wait call, with the interpolated
      data and the text of the suggested replacement of the wait call. */
  datatype Suggestion = Suggestion(
    anchor: Node,
    messageId: string,
    queryVariant: string,
    queryMethod: Option<string>,
    fullQuery: string,
    replacement: string)

  /** `${queryVariant}${queryMethod}`: the name of the async query to call instead. */
  function AsyncName(q: InnerQuery): string
  {
    GetFindByQueryVariant(q.queryName) + TemplateText(QueryMethodOf(q.queryName))
  }

  /** `${caller}.` for the member shape, nothing for the bare shape. */
  function CallerPrefix(caller: Option<string>): string
  {
    match caller
    case Some(obj) => obj + "."
    case None => ""
  }

  /** The call the replacement text denotes: the async variant called on the
      same object (member shape) or bare, with the same arguments. */
  function RewrittenCall(q: InnerQuery): Node
  {
    var name := AsyncName(q);
    match q.caller
    case Some(obj) => Call(Member(Ident(obj), Ident(name)), q.args)
    case None => Call(Ident(name), q.args)
  }

  /** The source text of the arguments, joined by `, `. */
  function ArgumentsText(args: seq<Node>, getText: Node -> string): string
  {
    Join(seq(|args|, i requires 0 <= i < |args| => getText(args[i])), ", ")
  }

  /** The replacement text of a matched wait call. */
  function ReplacementText(q: InnerQuery, getText: Node -> string): string
  {
    CallerPrefix(q.caller) + AsyncName(q) + "(" + ArgumentsText(q.args, getText) + ")"
  }

  /** The selector `AwaitExpression > CallExpression`: a call whose parent is
      an `await`. */
  predicate IsAwaitedCall(p: Path)
  {
    |p| > 1 && p[0].Call? && p[1].Await?
  }

  /** The handler, given the ancestor path of a node: a call that is not the
      direct argument of an `await` is never matched by the selector. A report
      is anchored at the wait call and quotes the wait call's own text. */
  function Check(p: Path, syncQueries: set<string>, getText: Node -> string): (r: Option<Suggestion>)
    ensures r.Some? <==> IsAwaitedCall(p) && MatchWaitCall(p[0], syncQueries).Some?
    ensures r.Some? ==> r.value.anchor == p[0] && r.value.fullQuery == getText(p[0])
    ensures r.Some? ==> r.value.messageId == "preferFindBy"
  {
    if !IsAwaitedCall(p) then None
    else
      match MatchWaitCall(p[0], syncQueries)
      case None => None
      case Some(q) =>
        Some(Suggestion(p[0], "preferFindBy", GetFindByQueryVariant(q.queryName), QueryMethodOf(q.queryName),
          getText(p[0]), ReplacementText(q, getText)))
  }

  /** A wait call wrapping a member-shape sync query matches, whatever the
      arrow function's parameters and whatever further arguments follow. */
  lemma MemberShapeMatches(wait: string, params: seq<Node>, obj: string, queryName: string,
                           args: seq<Node>, extra: seq<Node>, syncQueries: set<string>)
    requires wait in WaitMethods && queryName in syncQueries
    ensures MatchWaitCall(
              Call(Ident(wait), [ArrowFn(params, Call(Member(Ident(obj), Ident(queryName)), args))] + extra),
              syncQueries)
            == Some(InnerQuery(Some(obj), queryName, args))
  {
  }

  /** A wait call wrapping a bare sync query call matches, whatever the arrow
      function's parameters and whatever further arguments follow. */
  lemma BareShapeMatches(wait: string, params: seq<Node>, queryName: string,
                         args: seq<Node>, extra: seq<Node>, syncQueries: set<string>)
    requires wait in WaitMethods && queryName in syncQueries
    ensures MatchWaitCall(
              Call(Ident(wait), [ArrowFn(params, Call(Ident(queryName), args))] + extra),
              syncQueries)
            == Some(InnerQuery(None, queryName, args))
  {
  }

  /** For a sync name `get|query[All]By<Accessor>`, the derived variant and
      accessor spell the matching `find[All]By<Accessor>` name, which the
      `await-async-query` rule recognises. */
  lemma SyncQueryRewrite(kind: SyncKind, all: bool, a: string)
    requires a in Accessors
    ensures GetFindByQueryVariant(SyncQueryName(kind, all, a)) == (if all then "findAllBy" else "findBy")
    ensures QueryMethodOf(SyncQueryName(kind, all, a)) == Some(a)
    ensures GetFindByQueryVariant(SyncQueryName(kind, all, a))
              + TemplateText(QueryMethodOf(SyncQueryName(kind, all, a))) == AsyncQueryName(all, a)
    ensures IsAsyncQueryName(AsyncQueryName(all, a))
  {
    SyncQueryNameContainsAll(kind, all, a);
    SyncQueryNameAccessor(kind, all, a);
    ParseAsyncQueryName(all, a);
    var variant := GetFindByQueryVariant(SyncQueryName(kind, all, a));
    if all {
      assert variant == "find" + "All" + "By";
    } else {
      assert variant == "find" + "" + "By";
    }
  }

  /** The replacement text of a wrapped sync query is its async counterpart,
      on the same object if there was one, applied to the original argument
      texts joined by `, `. */
  lemma ReplacementOfSyncQuery(q: InnerQuery, getText: Node -> string, kind: SyncKind, all: bool, a: string)
    requires a in Accessors && q.queryName == SyncQueryName(kind, all, a)
    ensures AsyncName(q) == AsyncQueryName(all, a)
    ensures ReplacementText(q, getText) ==
      CallerPrefix(q.caller) + AsyncQueryName(all, a) + "(" + ArgumentsText(q.args, getText) + ")"
  {
    SyncQueryRewrite(kind, all, a);
  }

  /** End to end: an awaited wait call wrapping `[obj.]get|query[All]By<A>(args)`
      is reported with variant `findBy` or `findAllBy`, method `A`, and the
      replacement `[obj.]find[All]By<A>(args)` built from the inner call's own
      object, name and argument texts. */
  lemma CheckRewritesSyncQuery(p: Path, syncQueries: set<string>, getText: Node -> string,
                               kind: SyncKind, all: bool, a: string)
    requires IsAwaitedCall(p) && a in Accessors
    requires MatchWaitCall(p[0], syncQueries).Some?
    requires MatchWaitCall(p[0], syncQueries).value.queryName == SyncQueryName(kind, all, a)
    ensures var r := Check(p, syncQueries, getText);
            var inner := p[0].arguments[0].body;
            r.Some?
            && r.value.queryVariant == (if all then "findAllBy" else "findBy")
            && r.value.queryMethod == Some(a)
            && r.value.replacement ==
                 (if inner.callee.Member? then inner.callee.obj.name + "." else "")
                 + AsyncQueryName(all, a) + "(" + ArgumentsText(inner.arguments, getText) + ")"
  {
    var q := MatchWaitCall(p[0], syncQueries).value;
    SyncQueryRewrite(kind, all, a);
    ReplacementOfSyncQuery(q, getText, kind, all, a);
    assert CallerPrefix(q.caller) == (if p[0].arguments[0].body.callee.Member? then p[0].arguments[0].body.callee.obj.name + "." else "");
  }

  /** The rewrite replaces the wait call itself, so the new call is the direct
      argument of the `await`. Every identifier directly under the new call is
      then awaited at its grandparent, and none is ever collected as a suspect.
      The fact rests only on the `await` two levels up, not on the new call's
      name or arguments; `ReplacementOfSyncQuery` is the statement about the
      replacement text itself. */
  lemma RewriteIsAwaited(q: InnerQuery, rest: seq<Node>)
    ensures forall c :: c in Children(RewrittenCall(q)) && c.Ident? ==>
      var p: Path := [c, RewrittenCall(q), Await(RewrittenCall(q))] + rest;
      WellFormed(p[..3]) && !AwaitAsyncQuery.Suspect(p)
  {
    var nc := RewrittenCall(q);
    forall c | c in Children(nc) && c.Ident?
      ensures var p: Path := [c, nc, Await(nc)] + rest; WellFormed(p[..3]) && !AwaitAsyncQuery.Suspect(p)
    {
      var p: Path := [c, nc, Await(nc)] + rest;
      assert p[..3] == [c, nc, Await(nc)];
      assert AwaitAsyncQuery.IsAwaited(p[2]);
    }
  }

  /** For a bare rewrite of a sync name, the new callee is an async query
      identifier under a call, so the `await-async-query` selector visits it. */
  lemma BareRewriteIsVisited(q: InnerQuery, kind: SyncKind, all: bool, a: string, rest: seq<Node>)
    requires q.caller.None? && a in Accessors && q.queryName == SyncQueryName(kind, all, a)
    ensures RewrittenCall(q).callee == Ident(AsyncQueryName(all, a))
    ensures AwaitAsyncQuery.IsQueryIdentifier([RewrittenCall(q).callee, RewrittenCall(q), Await(RewrittenCall(q))] + rest)
  {
    SyncQueryRewrite(kind, all, a);
  }

  /** Re-running `await-async-query` after the rewrite: no report of the rule is
      anchored at an identifier directly under the rewritten call. As with
      `RewriteIsAwaited`, only the `await` around the call matters here. */
  lemma RewriteIsNeverReported(q: InnerQuery, visits: seq<AwaitAsyncQuery.Site>, p: Path)
    requires forall v :: v in visits ==> AwaitAsyncQuery.IsQueryIdentifier(v.ident)
    requires |p| >= 3 && p[1] == RewrittenCall(q) && p[2] == Await(RewrittenCall(q))
    ensures forall d :: d in AwaitAsyncQuery.Reported(AwaitAsyncQuery.Accumulate(visits)) ==> d.anchor != p
  {
    var acc := AwaitAsyncQuery.Accumulate(visits);
    AwaitAsyncQuery.ReportedContents(acc);
    assert AwaitAsyncQuery.IsAwaited(p[2]);
  }
}
