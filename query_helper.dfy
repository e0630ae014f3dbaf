/**
 * QueryHelper: finds every access-control list node of the repository
 * (`GetRepPolicyNodes`) and, for a set of authorizable ids, the ACLs holding
 * entries of their principals (`GetAuthorizablesAcls`).
 */
module QueryHelper {
  import opened Wrappers
  import opened Exceptions
  import opened Jcr
  import opened StringOrder
  import opened Collections

  /** The name of the repository-level policy node (`Constants.REPO_POLICY_NODE`). */
  const REPO_POLICY_NODE := "rep:repoPolicy"

  const ROOT_REP_POLICY_NODE := "/rep:policy"
  const ROOT_REPO_POLICY_NODE := "/" + REPO_POLICY_NODE
  const HOME_REP_POLICY := "/home/rep:policy"
  const OAK_INDEX_PATH_REP_ACL := "/oak:index/repACL"

  /** A format string holding one `%s`, split at it. */
  datatype Template = Template(before: string, after: string)

  /** `String.format(template, arg)`. */
  function Format(template: Template, arg: string): string
  {
    template.before + arg + template.after
  }

  // The two templates are written with their `SELECT` clause as a literal of
  // its own: the verifier reads the characters of a short literal, which
  // `StatementForInjective` needs to tell the templates apart.

  /** Used when the `rep:ACL` index exists: the ACL nodes below the path. */
  const ACL_QUERY := Template("SELECT *" + " FROM [rep:ACL] WHERE ISDESCENDANTNODE([", "])")

  /** Used otherwise: the entry nodes below the path that name a principal. */
  const ACE_QUERY := Template(
    "SELECT ace.*" + " FROM [rep:ACE] AS ace WHERE ace.[rep:principalName] IS NOT NULL AND ISDESCENDANTNODE(ace, [",
    "])")

  // ---------------------------------------------------------------------
  // Candidate paths: the root's children
  // ---------------------------------------------------------------------

  /** Some root child lacks the folder marker but has no path: `TreeSet.add(null)` throws. */
  ghost predicate EnumerationThrows(children: seq<RootChild>)
  {
    exists i :: 0 <= i < |children| && children[i].authorizableFolder == Some(false) && children[i].path.None?
  }

  /** `p` is the path of a root child without the `rep:AuthorizableFolder` property and is not excluded. */
  ghost predicate IsCandidatePath(children: seq<RootChild>, excludePaths: seq<Path>, p: Path)
  {
    && p !in excludePaths
    && exists i :: 0 <= i < |children| && children[i].path == Some(p) && children[i].authorizableFolder == Some(false)
  }

  /**
   * The first loop of `getRepPolicyNodes`: the paths of the root's children
   * go into a `TreeSet`, except authorizable folders and excluded paths. A
   * child whose `hasProperty` call threw is skipped; one whose `getPath`
   * call threw and which is not a folder ends the call with a
   * `NullPointerException`.
   */
  method CollectCandidatePaths(children: seq<RootChild>, excludePaths: seq<Path>) returns (r: Result<seq<Path>, Error>)
    ensures r.Err? <==> EnumerationThrows(children)
    ensures r.Err? ==> r.error == NullPointerException
    ensures r.Ok? ==> StrictlySorted(r.value)
    ensures r.Ok? ==> forall p :: p in r.value <==> IsCandidatePath(children, excludePaths, p)
  {
    var paths: seq<Path> := [];
    var i := 0;
    while i < |children|
      invariant 0 <= i <= |children|
      invariant StrictlySorted(paths)
      invariant !EnumerationThrows(children[..i])
      invariant forall p :: p in paths <==> IsCandidatePath(children[..i], excludePaths, p)
    {
      var child := children[i];
      if child.authorizableFolder == Some(false) {
        match child.path
        case None =>
          assert children[i].authorizableFolder == Some(false) && children[i].path.None?;
          return Err(NullPointerException);
        case Some(currentPath) =>
          if currentPath !in excludePaths {
            paths := Insert(paths, currentPath);
          }
      }
      assert children[..i + 1] == children[..i] + [child];
      i := i + 1;
    }
    assert children[..i] == children;
    return Ok(paths);
  }

  // ---------------------------------------------------------------------
  // Special policy nodes, query choice and per-path results
  // ---------------------------------------------------------------------

  /** The two root-level policy paths the per-path loop skips. */
  predicate IsSkippedPath(p: Path)
  {
    p == ROOT_REP_POLICY_NODE || p == ROOT_REPO_POLICY_NODE
  }

  predicate IsSpecialPath(p: Path)
  {
    p == ROOT_REP_POLICY_NODE || p == ROOT_REPO_POLICY_NODE || p == HOME_REP_POLICY
  }

  /** One `if (session.nodeExists(p)) nodes.add(session.getNode(p))` step; a lookup that throws ends the sequence of steps. */
  function AddIfExists(session: Session, acc: Result<seq<Path>, Error>, p: Path): (r: Result<seq<Path>, Error>)
    requires acc.Ok? ==> NoDuplicates(acc.value)
    ensures r.Ok? ==> NoDuplicates(r.value)
  {
    if acc.Err? then acc
    else
      match NodeExists(session, p)
      case Err(e) => Err(e)
      case Ok(present) => Ok(if present then AddIfAbsent(acc.value, p) else acc.value)
  }

  /**
   * The special policy nodes that exist, in the order `getRepPolicyNodes`
   * adds them, or the exception of the first existence check that throws.
   */
  function SpecialNodes(session: Session): (r: Result<seq<Path>, Error>)
    ensures r.Ok? <==> forall p :: IsSpecialPath(p) ==> p !in session.lookupFailures
    ensures r.Err? ==>
      exists p :: IsSpecialPath(p) && p in session.lookupFailures && r.error == RepositoryException(session.lookupFailures[p])
    ensures r.Ok? ==> NoDuplicates(r.value) && forall p :: p in r.value <==> IsSpecialPath(p) && p in session.nodes
  {
    assert |ROOT_REP_POLICY_NODE| == 11 && |ROOT_REPO_POLICY_NODE| == 15 && |HOME_REP_POLICY| == 16;
    var s1 := AddIfExists(session, Ok([]), ROOT_REP_POLICY_NODE);
    var s2 := AddIfExists(session, s1, ROOT_REPO_POLICY_NODE);
    AddIfExists(session, s2, HOME_REP_POLICY)
  }

  /** Whether the `rep:ACL` index exists; read only when `nodeExists` on its path did not throw. */
  predicate IndexExists(session: Session)
  {
    OAK_INDEX_PATH_REP_ACL in session.nodes
  }

  /** The statement issued for a candidate path. */
  function StatementFor(session: Session, p: Path): string
  {
    Format(if IndexExists(session) then ACL_QUERY else ACE_QUERY, p)
  }

  /** `getDistinctParentNodes`: the parents of the rows, each once. */
  function DistinctParents(session: Session, statement: string, language: Language): Result<set<Path>, Error>
  {
    match NodesOf(session, statement, language)
    case Err(e) => Err(e)
    case Ok(ns) =>
      if forall n :: n in ns ==> ParentOf(session, n).Ok? then
        Ok(set n | n in ns && ParentOf(session, n).Ok? :: ParentOf(session, n).value)
      else
        Err(RepositoryException(ITEM_NOT_FOUND))
  }

  /** The nodes the loop adds for one (not skipped) candidate path. */
  function PathResult(session: Session, p: Path): Result<set<Path>, Error>
  {
    if IndexExists(session) then NodesOf(session, StatementFor(session, p), JcrSql2)
    else DistinctParents(session, StatementFor(session, p), JcrSql2)
  }

  /** The nodes the per-path loop adds for the paths `ps`, taken in order; the first failing query ends it. */
  function Discovered(session: Session, ps: seq<Path>): Result<set<Path>, Error>
    decreases |ps|
  {
    if ps == [] then Ok({})
    else
      match Discovered(session, ps[..|ps| - 1])
      case Err(e) => Err(e)
      case Ok(found) =>
        var p := ps[|ps| - 1];
        if IsSkippedPath(p) then Ok(found)
        else
          match PathResult(session, p)
          case Err(e) => Err(e)
          case Ok(more) => Ok(found + more)
  }

  /** The statements the per-path loop issues for the paths `ps`, in order. */
  function IssuedStatements(session: Session, ps: seq<Path>): seq<string>
    decreases |ps|
  {
    if ps == [] then []
    else
      var p := ps[|ps| - 1];
      IssuedStatements(session, ps[..|ps| - 1]) + if IsSkippedPath(p) then [] else [StatementFor(session, p)]
  }

  /** The nodes one (not skipped) path adds; none for a skipped path or a failing query. */
  function PathRows(session: Session, p: Path): set<Path>
  {
    if IsSkippedPath(p) then {}
    else
      match PathResult(session, p)
      case Ok(rows) => rows
      case Err(_) => {}
  }

  /**
   * The per-path loop completes exactly when the query of every path it does
   * not skip succeeds, and then it has found exactly the nodes of all those
   * queries.
   */
  lemma {:induction false} DiscoveredContents(session: Session, ps: seq<Path>)
    ensures Discovered(session, ps).Ok? <==>
      forall k :: 0 <= k < |ps| && !IsSkippedPath(ps[k]) ==> PathResult(session, ps[k]).Ok?
    ensures Discovered(session, ps).Ok? ==>
      forall n :: n in Discovered(session, ps).value <==> exists k :: 0 <= k < |ps| && n in PathRows(session, ps[k])
    decreases |ps|
  {
    if ps != [] {
      var init := ps[..|ps| - 1];
      DiscoveredContents(session, init);
      assert forall k :: 0 <= k < |init| ==> init[k] == ps[k];
    }
  }

  /** The query phase after the special nodes: the index lookup, then the per-path loop. */
  function QueriedNodes(session: Session, ps: seq<Path>): Result<set<Path>, Error>
  {
    match NodeExists(session, OAK_INDEX_PATH_REP_ACL)
    case Err(e) => Err(e)
    case Ok(_) => Discovered(session, ps)
  }

  /** Once a query has failed, later paths change nothing: the failure is the result. */
  lemma {:induction false} DiscoveredFailureSticks(session: Session, a: seq<Path>, b: seq<Path>)
    requires Discovered(session, a).Err?
    ensures Discovered(session, a + b) == Discovered(session, a)
    decreases |b|
  {
    if b != [] {
      var ab := a + b;
      assert ab[..|ab| - 1] == a + b[..|b| - 1];
      DiscoveredFailureSticks(session, a, b[..|b| - 1]);
    } else {
      assert a + b == a;
    }
  }

  // ---------------------------------------------------------------------
  // The query primitives
  // ---------------------------------------------------------------------

  /** `getNodes(session, statement, language)`: every row of the result, in a `HashSet`. */
  method GetNodes(session: Session, queryStatement: string, queryLanguageType: Language) returns (r: Result<set<Path>, Error>)
    ensures r == NodesOf(session, queryStatement, queryLanguageType)
  {
    var queryResult := session.query(queryStatement, queryLanguageType);
    if queryResult.Err? {
      return Err(RepositoryException(queryResult.error));
    }
    var rows := queryResult.value;
    var nodes: set<Path> := {};
    var i := 0;
    while i < |rows|
      invariant 0 <= i <= |rows|
      invariant nodes == set j | 0 <= j < i :: rows[j]
    {
      nodes := nodes + {rows[i]};
      i := i + 1;
    }
    return Ok(nodes);
  }

  /** `getNodes(session, xpathQuery)`: the XPath overload. */
  method GetNodesXPath(session: Session, xpathQuery: string) returns (r: Result<set<Path>, Error>)
    ensures r == NodesOf(session, xpathQuery, XPath)
  {
    r := GetNodes(session, xpathQuery, XPath);
  }

  /** `getDistinctParentNodes`: runs the query and collects the parent of every row into a `HashSet`. */
  method GetDistinctParentNodes(session: Session, queryStatement: string, queryLanguageType: Language)
    returns (r: Result<set<Path>, Error>)
    ensures r == DistinctParents(session, queryStatement, queryLanguageType)
  {
    var nodes := GetNodes(session, queryStatement, queryLanguageType);
    if nodes.Err? {
      return Err(nodes.error);
    }
    var ns := nodes.value;
    var parentNodes: set<Path> := {};
    var rest := ns;
    while rest != {}
      invariant rest <= ns
      invariant forall n :: n in ns - rest ==> ParentOf(session, n).Ok?
      invariant parentNodes == set n | n in ns - rest && ParentOf(session, n).Ok? :: ParentOf(session, n).value
      decreases rest
    {
      var node :| node in rest;
      var parent := ParentOf(session, node);
      if parent.Err? {
        return Err(parent.error);
      }
      parentNodes := parentNodes + {parent.value};
      rest := rest - {node};
    }
    assert ns - rest == ns;
    return Ok(parentNodes);
  }

  /** A set of parents has at most as many elements as the set of rows they come from. */
  lemma {:induction false} DistinctParentsNoLarger(session: Session, ns: set<Path>)
    requires forall n :: n in ns ==> ParentOf(session, n).Ok?
    ensures |set n | n in ns && ParentOf(session, n).Ok? :: ParentOf(session, n).value| <= |ns|
    decreases |ns|
  {
    if ns != {} {
      var m :| m in ns;
      var rest := ns - {m};
      DistinctParentsNoLarger(session, rest);
      var all := set n | n in ns && ParentOf(session, n).Ok? :: ParentOf(session, n).value;
      var fewer := set n | n in rest && ParentOf(session, n).Ok? :: ParentOf(session, n).value;
      assert all == fewer + {ParentOf(session, m).value};
    }
  }

  /**
   * `getDistinctParentNodes` returns exactly the parents of the rows, never
   * more nodes than rows, and a single node when all rows share one parent
   * (N entries of one ACL yield that ACL once).
   */
  lemma DistinctParentsSpec(session: Session, statement: string, language: Language)
    ensures NodesOf(session, statement, language).Ok? && DistinctParents(session, statement, language).Ok? ==>
      var ns := NodesOf(session, statement, language).value;
      var ps := DistinctParents(session, statement, language).value;
      && (forall q :: q in ps <==> exists n :: n in ns && ParentOf(session, n) == Ok(q))
      && |ps| <= |ns|
      && (forall q :: ns != {} && (forall n :: n in ns ==> ParentOf(session, n) == Ok(q)) ==> ps == {q})
    ensures NodesOf(session, statement, language).Err? ==>
      DistinctParents(session, statement, language) == Err(NodesOf(session, statement, language).error)
  {
    var res := NodesOf(session, statement, language);
    if res.Ok? && DistinctParents(session, statement, language).Ok? {
      DistinctParentsNoLarger(session, res.value);
    }
  }

  // ---------------------------------------------------------------------
  // getRepPolicyNodes
  // ---------------------------------------------------------------------

  /** The root's children could be enumerated without a `NullPointerException`. */
  ghost predicate Enumerates(session: Session)
  {
    session.rootChildren.Some? && !EnumerationThrows(session.rootChildren.value)
  }

  /**
   * The rest of the query phase of `getRepPolicyNodes`: the template is
   * chosen once, by whether the `rep:ACL` index exists, then each candidate
   * path in turn, except the two root-level policy paths, is queried and its
   * result merged into the `LinkedHashSet` `nodes0`. A failing lookup or
   * query ends the loop.
   */
  method QueryCandidatePaths(session: Session, paths: seq<Path>, nodes0: seq<Path>)
    returns (r: Result<seq<Path>, Error>, ghost statements: seq<string>)
    requires NoDuplicates(nodes0)
    ensures NodeExists(session, OAK_INDEX_PATH_REP_ACL).Err? ==> statements == []
    ensures QueriedNodes(session, paths).Err? ==> r == Err(QueriedNodes(session, paths).error)
    ensures (NodeExists(session, OAK_INDEX_PATH_REP_ACL).Ok? && QueriedNodes(session, paths).Err?) ==>
      exists k :: 0 <= k < |paths| && !IsSkippedPath(paths[k]) && Discovered(session, paths[..k]).Ok?
        && PathResult(session, paths[k]).Err? && statements == IssuedStatements(session, paths[..k + 1])
    ensures QueriedNodes(session, paths).Ok? ==>
      && r.Ok?
      && NoDuplicates(r.value)
      && |nodes0| <= |r.value| && r.value[..|nodes0|] == nodes0
      && (forall n :: n in r.value <==> n in nodes0 || n in QueriedNodes(session, paths).value)
      && statements == IssuedStatements(session, paths)
  {
    statements := [];
    var indexLookup := NodeExists(session, OAK_INDEX_PATH_REP_ACL);
    if indexLookup.Err? {
      return Err(indexLookup.error), statements;
    }
    var indexForRepACLExists := indexLookup.value;
    var queryForAclNodes := if indexForRepACLExists then ACL_QUERY else ACE_QUERY;

    var nodes := nodes0;
    ghost var found: set<Path> := {};
    var i := 0;
    while i < |paths|
      invariant 0 <= i <= |paths|
      invariant Discovered(session, paths[..i]) == Ok(found)
      invariant statements == IssuedStatements(session, paths[..i])
      invariant NoDuplicates(nodes)
      invariant |nodes0| <= |nodes| && nodes[..|nodes0|] == nodes0
      invariant forall n :: n in nodes <==> n in nodes0 || n in found
    {
      var path := paths[i];
      assert paths[..i + 1][..i] == paths[..i];
      if path == ROOT_REP_POLICY_NODE || path == ROOT_REPO_POLICY_NODE {
        i := i + 1;
        continue;
      }
      var query := Format(queryForAclNodes, path);
      statements := statements + [query];
      var nodesResult: Result<set<Path>, Error>;
      if indexForRepACLExists {
        nodesResult := GetNodes(session, query, JcrSql2);
      } else {
        nodesResult := GetDistinctParentNodes(session, query, JcrSql2);
      }
      assert nodesResult == PathResult(session, path);
      if nodesResult.Err? {
        DiscoveredFailureSticks(session, paths[..i + 1], paths[i + 1..]);
        assert paths[..i + 1] + paths[i + 1..] == paths;
        assert !IsSkippedPath(paths[i]) && Discovered(session, paths[..i]).Ok?;
        assert statements == IssuedStatements(session, paths[..i + 1]);
        return Err(nodesResult.error), statements;
      }
      ghost var before := nodes;
      nodes := AppendAll(nodes, nodesResult.value);
      assert nodes[..|nodes0|] == before[..|nodes0|];
      found := found + nodesResult.value;
      i := i + 1;
    }
    assert paths[..i] == paths;
    return Ok(nodes), statements;
  }

  /**
   * `getRepPolicyNodes`: the special policy nodes that exist, then the
   * result of one query per candidate path in ascending order, merged into
   * a `LinkedHashSet`; any exception of the query phase (existence
   * checks, the index lookup, the queries) is rethrown as an
   * `IllegalStateException`. `candidates` is the ascending candidate list
   * the loop walks and `statements` the queries it issues.
   */
  method GetRepPolicyNodes(session: Session, excludePaths: seq<Path>)
    returns (r: Result<seq<Path>, Error>, ghost candidates: seq<Path>, ghost statements: seq<string>)
    ensures !Enumerates(session) ==> r == Err(NullPointerException)
    ensures !Enumerates(session) ==> statements == []
    ensures (Enumerates(session) && SpecialNodes(session).Ok? && NodeExists(session, OAK_INDEX_PATH_REP_ACL).Err?) ==>
      statements == []
    ensures Enumerates(session) ==> StrictlySorted(candidates)
    ensures Enumerates(session) ==>
      forall p :: p in candidates <==> IsCandidatePath(session.rootChildren.value, excludePaths, p)
    ensures Enumerates(session) && SpecialNodes(session).Err? ==>
      r == Err(IllegalStateException(SpecialNodes(session).error))
    ensures Enumerates(session) && SpecialNodes(session).Err? ==> statements == []
    ensures Enumerates(session) && SpecialNodes(session).Ok? && QueriedNodes(session, candidates).Err? ==>
      r == Err(IllegalStateException(QueriedNodes(session, candidates).error))
    ensures (Enumerates(session) && SpecialNodes(session).Ok? && NodeExists(session, OAK_INDEX_PATH_REP_ACL).Ok?
             && QueriedNodes(session, candidates).Err?) ==>
      exists k :: 0 <= k < |candidates| && !IsSkippedPath(candidates[k]) && Discovered(session, candidates[..k]).Ok?
        && PathResult(session, candidates[k]).Err? && statements == IssuedStatements(session, candidates[..k + 1])
    ensures Enumerates(session) && SpecialNodes(session).Ok? && QueriedNodes(session, candidates).Ok? ==>
      var special := SpecialNodes(session).value;
      && r.Ok?
      && NoDuplicates(r.value)
      && |special| <= |r.value|
      && r.value[..|special|] == special
      && (forall n :: n in r.value <==> n in special || n in QueriedNodes(session, candidates).value)
    ensures Enumerates(session) && SpecialNodes(session).Ok? && QueriedNodes(session, candidates).Ok? ==>
      statements == IssuedStatements(session, candidates)
  {
    candidates, statements := [], [];
    var nodeIt := session.rootChildren;
    if nodeIt.None? {
      return Err(NullPointerException), candidates, statements;
    }
    var paths := CollectCandidatePaths(nodeIt.value, excludePaths);
    if paths.Err? {
      return Err(paths.error), candidates, statements;
    }
    candidates := paths.value;
    var nodes: seq<Path> := [];
    var rootPolicy := NodeExists(session, ROOT_REP_POLICY_NODE);
    if rootPolicy.Err? {
      return Err(IllegalStateException(rootPolicy.error)), candidates, statements;
    }
    if rootPolicy.value {
      nodes := AddIfAbsent(nodes, ROOT_REP_POLICY_NODE);
    }
    var repoPolicy := NodeExists(session, ROOT_REPO_POLICY_NODE);
    if repoPolicy.Err? {
      return Err(IllegalStateException(repoPolicy.error)), candidates, statements;
    }
    if repoPolicy.value {
      nodes := AddIfAbsent(nodes, ROOT_REPO_POLICY_NODE);
    }
    var homePolicy := NodeExists(session, HOME_REP_POLICY);
    if homePolicy.Err? {
      return Err(IllegalStateException(homePolicy.error)), candidates, statements;
    }
    if homePolicy.value {
      nodes := AddIfAbsent(nodes, HOME_REP_POLICY);
    }
    assert Ok(nodes) == SpecialNodes(session);
    var result;
    result, statements := QueryCandidatePaths(session, paths.value, nodes);
    if result.Err? {
      return Err(IllegalStateException(result.error)), candidates, statements;
    }
    return result, candidates, statements;
  }

  /**
   * The statement identifies both the path and the branch: the two
   * templates differ, so equal statements come from the same index state
   * and the same candidate path.
   */
  lemma StatementForInjective(s1: Session, s2: Session, p: Path, q: Path)
    requires StatementFor(s1, p) == StatementFor(s2, q)
    ensures IndexExists(s1) == IndexExists(s2)
    ensures p == q
  {
    var t1 := if IndexExists(s1) then ACL_QUERY else ACE_QUERY;
    var t2 := if IndexExists(s2) then ACL_QUERY else ACE_QUERY;
    var st := StatementFor(s1, p);
    assert ACL_QUERY.before[7] == '*' && ACE_QUERY.before[7] == 'a';
    assert st[7] == t1.before[7] && st[7] == t2.before[7];
    assert t1 == t2;
    assert |p| == |q|;
    assert p == st[|t1.before|..|t1.before| + |p|];
    assert q == st[|t1.before|..|t1.before| + |q|];
  }

  // ---------------------------------------------------------------------
  // getAuthorizablesAcls: batched lookup of the ACLs of authorizables
  // ---------------------------------------------------------------------

  /** The number of ids per statement `getAuthorizablesAcls` asks for. */
  const ID_BATCH_LIMIT := 100

  const AUTHORIZABLES_QUERY :=
    "SELECT ace.*" + " FROM [rep:ACE] AS ace INNER JOIN [rep:Authorizable] AS authorizable "
    + "ON ace.[rep:principalName] = authorizable.[rep:principalName] WHERE "

  const OR := " or "

  /** The predicate selecting one authorizable id. */
  function IdClause(id: string): string
  {
    "authorizable.[rep:authorizableId] = '" + id + "'"
  }

  /** The clauses of `ids`, in order, separated by `" or "`. */
  function IdPredicate(ids: seq<string>): string
    decreases |ids|
  {
    if |ids| == 0 then ""
    else if |ids| == 1 then IdClause(ids[0])
    else IdPredicate(ids[..|ids| - 1]) + OR + IdClause(ids[|ids| - 1])
  }

  /** Joining two non-empty batches is joining each and putting one separator between them. */
  lemma {:induction false} IdPredicateAppend(a: seq<string>, b: seq<string>)
    requires a != [] && b != []
    ensures IdPredicate(a + b) == IdPredicate(a) + OR + IdPredicate(b)
    decreases |b|
  {
    var ab := a + b;
    assert ab[..|ab| - 1] == a + b[..|b| - 1];
    if |b| > 1 {
      IdPredicateAppend(a, b[..|b| - 1]);
    } else {
      assert ab[..|ab| - 1] == a;
    }
  }

  /** The predicate opens with the first id's clause and has a separator only between two clauses. */
  lemma IdPredicateFirst(id: string, rest: seq<string>)
    ensures IdPredicate([id] + rest) == IdClause(id) + (if rest == [] then "" else OR + IdPredicate(rest))
  {
    if rest != [] {
      IdPredicateAppend([id], rest);
    }
  }

  /** Extending a run of ids by the next id adds that id's clause, after a separator unless the run was empty. */
  lemma IdPredicateSnoc(ids: seq<string>, pos: nat, next: nat)
    requires pos <= next < |ids|
    ensures IdPredicate(ids[pos..next + 1])
         == (if pos == next then "" else IdPredicate(ids[pos..next]) + OR) + IdClause(ids[next])
  {
    var longer := ids[pos..next + 1];
    assert longer[..|longer| - 1] == ids[pos..next];
    assert longer[|longer| - 1] == ids[next];
  }

  /** A limit below 1 still lets one id through: the first id is appended before the limit is checked. */
  function Cap(limit: int): nat
  {
    if limit < 1 then 1 else limit
  }

  function Min(a: int, b: int): int
  {
    if a <= b then a else b
  }

  /**
   * `getAuthorizablesQueryStringBuilder`: the iterator is `ids` at position
   * `pos`; `next` is its position afterwards. It returns `""` when nothing is
   * left, otherwise the clauses of the next `Cap(limit)` ids (or of all that
   * are left) joined with `" or "`.
   */
  method GetAuthorizablesQueryStringBuilder(ids: seq<string>, pos: nat, authorizablesLimitPerQuery: int)
    returns (querySb: string, next: nat)
    requires pos <= |ids|
    ensures pos == |ids| ==> querySb == "" && next == pos
    ensures pos < |ids| ==> next == pos + Min(|ids| - pos, Cap(authorizablesLimitPerQuery))
    ensures pos < |ids| ==> querySb == IdPredicate(ids[pos..next])
  {
    var authorizableCounter := 0;
    querySb := "";
    next := pos;
    if next == |ids| {
      return;
    }
    while true
      invariant pos <= next < |ids|
      invariant authorizableCounter == next - pos
      invariant authorizableCounter == 0 || authorizableCounter < authorizablesLimitPerQuery
      invariant querySb == if authorizableCounter == 0 then "" else IdPredicate(ids[pos..next]) + OR
      decreases |ids| - next
    {
      IdPredicateSnoc(ids, pos, next);
      querySb := querySb + IdClause(ids[next]);
      next := next + 1;
      authorizableCounter := authorizableCounter + 1;
      if authorizableCounter < authorizablesLimitPerQuery && next < |ids| {
        querySb := querySb + OR;
      } else {
        return;
      }
    }
  }

  /** The batches the outer loop of `getAuthorizablesAcls` cuts `ids` into. */
  function Batches(ids: seq<string>, limit: int): seq<seq<string>>
    decreases |ids|
  {
    if ids == [] then []
    else
      var m := Min(|ids|, Cap(limit));
      [ids[..m]] + Batches(ids[m..], limit)
  }

  function Flatten(bs: seq<seq<string>>): seq<string>
    decreases |bs|
  {
    if bs == [] then [] else bs[0] + Flatten(bs[1..])
  }

  /**
   * The batches cover every id exactly once, in iteration order; each holds
   * between 1 and `Cap(limit)` ids, and all but the last are full.
   */
  lemma {:induction false} BatchesPartition(ids: seq<string>, limit: int)
    ensures Flatten(Batches(ids, limit)) == ids
    ensures forall k :: 0 <= k < |Batches(ids, limit)| ==> 1 <= |Batches(ids, limit)[k]| <= Cap(limit)
    ensures forall k :: 0 <= k < |Batches(ids, limit)| - 1 ==> |Batches(ids, limit)[k]| == Cap(limit)
    decreases |ids|
  {
    if ids != [] {
      var m := Min(|ids|, Cap(limit));
      BatchesPartition(ids[m..], limit);
      assert ids == ids[..m] + ids[m..];
    }
  }

  /** With the limit of 100, `n` ids take ceil(n / 100) statements. */
  lemma {:induction false} BatchCount(ids: seq<string>)
    ensures |Batches(ids, ID_BATCH_LIMIT)| == (|ids| + ID_BATCH_LIMIT - 1) / ID_BATCH_LIMIT
    decreases |ids|
  {
    if ids != [] {
      var m := Min(|ids|, ID_BATCH_LIMIT);
      BatchCount(ids[m..]);
    }
  }

  /** The batch starting at `pos` is the one `getAuthorizablesQueryStringBuilder` consumes from there. */
  lemma BatchesStep(ids: seq<string>, pos: nat, limit: int)
    requires pos < |ids|
    ensures var next := pos + Min(|ids| - pos, Cap(limit));
      Batches(ids[pos..], limit) == [ids[pos..next]] + Batches(ids[next..], limit)
  {
    var next := pos + Min(|ids| - pos, Cap(limit));
    var rest := ids[pos..];
    assert rest[..next - pos] == ids[pos..next] && rest[next - pos..] == ids[next..];
  }

  /** The statement of one batch. */
  function BatchStatement(batch: seq<string>): string
  {
    AUTHORIZABLES_QUERY + IdPredicate(batch)
  }

  /**
   * The entry nodes the batch statements `bs` find, added to `acc`, the
   * batches taken in order; the first failing query ends it.
   */
  function BatchesFound(session: Session, bs: seq<seq<string>>, acc: set<Path>): Result<set<Path>, Error>
    decreases |bs|
  {
    if bs == [] then Ok(acc)
    else
      match NodesOf(session, BatchStatement(bs[0]), JcrSql2)
      case Err(e) => Err(e)
      case Ok(more) => BatchesFound(session, bs[1..], acc + more)
  }

  /** The rows of one batch statement; none when it fails. */
  function BatchRows(session: Session, batch: seq<string>): set<Path>
  {
    match NodesOf(session, BatchStatement(batch), JcrSql2)
    case Ok(rows) => rows
    case Err(_) => {}
  }

  /**
   * The batch lookup succeeds exactly when every batch statement does, and
   * then finds exactly the rows of all of them.
   */
  lemma {:induction false} BatchesFoundContents(session: Session, bs: seq<seq<string>>, acc: set<Path>)
    ensures BatchesFound(session, bs, acc).Ok? <==>
      forall k :: 0 <= k < |bs| ==> NodesOf(session, BatchStatement(bs[k]), JcrSql2).Ok?
    ensures BatchesFound(session, bs, acc).Ok? ==>
      forall n :: n in BatchesFound(session, bs, acc).value <==>
        n in acc || exists k :: 0 <= k < |bs| && n in BatchRows(session, bs[k])
    decreases |bs|
  {
    if bs != [] {
      var first := NodesOf(session, BatchStatement(bs[0]), JcrSql2);
      if first.Ok? {
        BatchesFoundContents(session, bs[1..], acc + first.value);
        assert forall k :: 1 <= k < |bs| ==> bs[k] == bs[1..][k - 1];
      }
    }
  }

  /** The statements the batch loop issues for the batches `bs`, in order, up to and including the first that fails. */
  function BatchStatementsIssued(session: Session, bs: seq<seq<string>>): seq<string>
    decreases |bs|
  {
    if bs == [] then []
    else if NodesOf(session, BatchStatement(bs[0]), JcrSql2).Err? then [BatchStatement(bs[0])]
    else [BatchStatement(bs[0])] + BatchStatementsIssued(session, bs[1..])
  }

  /** The statements issued so far, `issued`, followed by those the batch loop issues for the batches `bs`. */
  function BatchStatementsFrom(session: Session, bs: seq<seq<string>>, issued: seq<string>): seq<string>
    decreases |bs|
  {
    if bs == [] then issued
    else if NodesOf(session, BatchStatement(bs[0]), JcrSql2).Err? then issued + [BatchStatement(bs[0])]
    else BatchStatementsFrom(session, bs[1..], issued + [BatchStatement(bs[0])])
  }

  /** The loop's running list of statements ends as the statements issued before it followed by the batches' own. */
  lemma {:induction false} BatchStatementsFromIssued(session: Session, bs: seq<seq<string>>, issued: seq<string>)
    ensures BatchStatementsFrom(session, bs, issued) == issued + BatchStatementsIssued(session, bs)
    decreases |bs|
  {
    if bs != [] && NodesOf(session, BatchStatement(bs[0]), JcrSql2).Ok? {
      BatchStatementsFromIssued(session, bs[1..], issued + [BatchStatement(bs[0])]);
    }
  }

  /** The batch loop issues the batches' statements in order, each once, and every one but the last succeeded. */
  lemma {:induction false} BatchStatementsInOrder(session: Session, bs: seq<seq<string>>)
    ensures var st := BatchStatementsIssued(session, bs);
      && |st| <= |bs|
      && (forall k :: 0 <= k < |st| ==> st[k] == BatchStatement(bs[k]))
      && (forall k :: 0 <= k < |st| - 1 ==> NodesOf(session, st[k], JcrSql2).Ok?)
    decreases |bs|
  {
    if bs != [] && NodesOf(session, BatchStatement(bs[0]), JcrSql2).Ok? {
      BatchStatementsInOrder(session, bs[1..]);
    }
  }

  /**
   * The batch loop issues a statement for every batch when the lookup
   * succeeds; otherwise it stops at the first that fails, whose exception
   * is the lookup's.
   */
  lemma {:induction false} BatchStatementsContents(session: Session, bs: seq<seq<string>>, acc: set<Path>)
    ensures BatchesFound(session, bs, acc).Ok? ==> |BatchStatementsIssued(session, bs)| == |bs|
    ensures BatchesFound(session, bs, acc).Err? ==>
      var st := BatchStatementsIssued(session, bs);
      |st| > 0 && NodesOf(session, st[|st| - 1], JcrSql2) == Err(BatchesFound(session, bs, acc).error)
    decreases |bs|
  {
    if bs != [] {
      var first := NodesOf(session, BatchStatement(bs[0]), JcrSql2);
      if first.Ok? {
        BatchStatementsContents(session, bs[1..], acc + first.value);
      }
    }
  }

  /** One turn of the batch loop from position `pos`: the next batch's statement, then the rest of the ids or its failure. */
  lemma BatchLoopStep(session: Session, ids: seq<string>, pos: nat, found: set<Path>, issued: seq<string>)
    requires pos < |ids|
    ensures var next := pos + Min(|ids| - pos, Cap(ID_BATCH_LIMIT));
      var statement := BatchStatement(ids[pos..next]);
      var res := NodesOf(session, statement, JcrSql2);
      && BatchStatementsFrom(session, Batches(ids[pos..], ID_BATCH_LIMIT), issued)
         == (if res.Err? then issued + [statement]
             else BatchStatementsFrom(session, Batches(ids[next..], ID_BATCH_LIMIT), issued + [statement]))
      && BatchesFound(session, Batches(ids[pos..], ID_BATCH_LIMIT), found)
         == (if res.Err? then Err(res.error) else BatchesFound(session, Batches(ids[next..], ID_BATCH_LIMIT), found + res.value))
  {
    BatchesStep(ids, pos, ID_BATCH_LIMIT);
  }

  /** A successful lookup of `n` authorizable ids issues ceil(n / 100) statements, one per batch. */
  lemma AuthorizablesStatementCount(session: Session, ids: seq<string>)
    requires BatchesFound(session, Batches(ids, ID_BATCH_LIMIT), {}).Ok?
    ensures |BatchStatementsIssued(session, Batches(ids, ID_BATCH_LIMIT))| == (|ids| + ID_BATCH_LIMIT - 1) / ID_BATCH_LIMIT
  {
    BatchStatementsContents(session, Batches(ids, ID_BATCH_LIMIT), {});
    BatchCount(ids);
  }

  // ---------------------------------------------------------------------
  // buildAclBeansFromNodeSet
  // ---------------------------------------------------------------------

  /**
   * An ACL as the core builds it: `parentPath` is the path the list is
   * effective on (`None` for the repository-level policy), `jcrPath` the
   * path of the policy node, `acl` the list the access-control manager
   * returned.
   */
  datatype AclBean = AclBean(parentPath: Option<Path>, jcrPath: Path, acl: nat)

  /** The path an ACL node is effective on and the path recorded for it. */
  function AclLocation(session: Session, aclNode: Path): Result<(Option<Path>, Path), Error>
  {
    match NameOf(session, aclNode)
    case Err(e) => Err(e)
    case Ok(name) =>
      if REPO_POLICY_NODE != name then
        match ParentOf(session, aclNode)
        case Err(e) => Err(e)
        case Ok(effective) => Ok((Some(effective), aclNode))
      else
        Ok((None, ROOT_REPO_POLICY_NODE))
  }

  /** `(AccessControlList) getPolicies(path)[0]`: `None` when that element is `null`. */
  function FirstPolicy(session: Session, effective: Option<Path>): (r: Result<Option<nat>, Error>)
    ensures session.policies(effective).Err? ==> r == Err(RepositoryException(session.policies(effective).error))
    ensures session.policies(effective).Ok? ==>
      var policies := session.policies(effective).value;
      && (r == Err(ArrayIndexOutOfBoundsException) <==> |policies| == 0)
      && (r == Err(ClassCastException) <==> |policies| > 0 && policies[0] == Some(OtherPolicy))
      && (r == Ok(None) <==> |policies| > 0 && policies[0] == None)
      && (forall id :: r == Ok(Some(id)) <==> |policies| > 0 && policies[0] == Some(JackrabbitAcl(id)))
  {
    match session.policies(effective)
    case Err(detail) => Err(RepositoryException(detail))
    case Ok(policies) =>
      if |policies| == 0 then Err(ArrayIndexOutOfBoundsException)
      else
        match policies[0]
        case None => Ok(None)
        case Some(OtherPolicy) => Err(ClassCastException)
        case Some(JackrabbitAcl(id)) => Ok(Some(id))
  }

  /** The bean one entry node yields, `None` when its ACL lookup gives `null` and the entry is skipped. */
  function EntryAcl(session: Session, entry: Path): Result<Option<AclBean>, Error>
  {
    match ParentOf(session, entry)
    case Err(e) => Err(e)
    case Ok(aclNode) =>
      match AclLocation(session, aclNode)
      case Err(e) => Err(e)
      case Ok((effective, jcrPath)) =>
        match FirstPolicy(session, effective)
        case Err(e) => Err(e)
        case Ok(None) => Ok(None)
        case Ok(Some(acl)) => Ok(Some(AclBean(effective, jcrPath, acl)))
  }

  /** The beans built so far (before de-duplication) and the principal ids recorded so far. */
  datatype BuildState = BuildState(beans: Result<seq<AclBean>, Error>, principals: set<string>)

  /**
   * The loop of `buildAclBeansFromNodeSet` over the entries `ns`, with the
   * beans built so far `beans` and the principal ids recorded so far
   * `principals`. Each entry's principal is recorded before its ACL is
   * looked up; an entry whose ACL is `null` adds no bean; the first
   * exception ends the loop.
   */
  function BuildFrom(session: Session, ns: seq<Path>, beans: seq<AclBean>, principals: set<string>): BuildState
    decreases |ns|
  {
    if ns == [] then BuildState(Ok(beans), principals)
    else
      match PrincipalNameOf(session, ns[0])
      case Err(e) => BuildState(Err(e), principals)
      case Ok(principalId) =>
        var recorded := principals + {principalId};
        match EntryAcl(session, ns[0])
        case Err(e) => BuildState(Err(e), recorded)
        case Ok(None) => BuildFrom(session, ns[1..], beans, recorded)
        case Ok(Some(bean)) => BuildFrom(session, ns[1..], beans + [bean], recorded)
  }

  /** The whole loop, from no beans and the caller's principal set. */
  function BuildSpec(session: Session, ns: seq<Path>, principals0: set<string>): BuildState
  {
    BuildFrom(session, ns, [], principals0)
  }

  /**
   * The result and the filled principal set, the beans kept in a `TreeSet`
   * ordered by `sameBean`; when `getAccessControlManager()` throws, nothing
   * is recorded.
   */
  function BuildOutcome(session: Session, ns: seq<Path>, principals0: set<string>, sameBean: (AclBean, AclBean) -> bool)
    : (Result<seq<AclBean>, Error>, set<string>)
  {
    match session.accessControlManagerFailure
    case Some(detail) => (Err(RepositoryException(detail)), principals0)
    case None =>
      var st := BuildSpec(session, ns, principals0);
      (if st.beans.Ok? then Ok(Dedup(sameBean, st.beans.value)) else Err(st.beans.error), st.principals)
  }

  /**
   * The output set only grows: the principal ids it held, and those recorded
   * before an entry throws, are still there when the loop ends, normally or
   * by an exception.
   */
  lemma {:induction false} BuildKeepsPrincipals(session: Session, ns: seq<Path>, beans: seq<AclBean>, principals: set<string>)
    ensures principals <= BuildFrom(session, ns, beans, principals).principals
    decreases |ns|
  {
    if ns != [] {
      match PrincipalNameOf(session, ns[0])
      case Err(_) =>
      case Ok(principalId) =>
        var recorded := principals + {principalId};
        match EntryAcl(session, ns[0])
        case Err(_) =>
        case Ok(None) => BuildKeepsPrincipals(session, ns[1..], beans, recorded);
        case Ok(Some(bean)) => BuildKeepsPrincipals(session, ns[1..], beans + [bean], recorded);
    }
  }

  /**
   * When the loop completes, the principal of EVERY entry node has been
   * recorded, also of entries skipped because their ACL lookup gave `null`,
   * and the beans are exactly those the entries yield.
   */
  lemma {:induction false} BuildRecordsEveryPrincipal(session: Session, ns: seq<Path>, beans: seq<AclBean>, principals: set<string>)
    requires BuildFrom(session, ns, beans, principals).beans.Ok?
    ensures forall n :: n in ns ==> PrincipalNameOf(session, n).Ok? && EntryAcl(session, n).Ok?
    ensures BuildFrom(session, ns, beans, principals).principals
         == principals + set n | n in ns && PrincipalNameOf(session, n).Ok? :: PrincipalNameOf(session, n).value
    ensures forall b :: b in BuildFrom(session, ns, beans, principals).beans.value <==>
                        b in beans || exists n :: n in ns && EntryAcl(session, n) == Ok(Some(b))
    decreases |ns|
  {
    if ns != [] {
      var first := ns[0];
      var rest := ns[1..];
      assert forall n :: n in ns <==> n == first || n in rest;
      var recorded := principals + {PrincipalNameOf(session, first).value};
      var more := if EntryAcl(session, first).value.Some? then beans + [EntryAcl(session, first).value.value] else beans;
      BuildRecordsEveryPrincipal(session, rest, more, recorded);
      var all := set n | n in ns && PrincipalNameOf(session, n).Ok? :: PrincipalNameOf(session, n).value;
      var later := set n | n in rest && PrincipalNameOf(session, n).Ok? :: PrincipalNameOf(session, n).value;
      assert all == {PrincipalNameOf(session, first).value} + later;
    }
  }

  /**
   * The path mapping of one entry: an ACL node named `REPO_POLICY_NODE`
   * yields no parent path and the jcr path `"/" + REPO_POLICY_NODE`; any
   * other ACL node yields its own parent's path and its own path. The ACL is
   * the first policy at the parent path.
   */
  lemma EntryAclLocation(session: Session, entry: Path, bean: AclBean)
    requires EntryAcl(session, entry) == Ok(Some(bean))
    ensures ParentOf(session, entry).Ok? && NameOf(session, ParentOf(session, entry).value).Ok?
    ensures var aclNode := ParentOf(session, entry).value;
      if NameOf(session, aclNode).value == REPO_POLICY_NODE then
        bean.parentPath == None && bean.jcrPath == "/" + REPO_POLICY_NODE
      else
        ParentOf(session, aclNode).Ok? && bean.parentPath == Some(ParentOf(session, aclNode).value) && bean.jcrPath == aclNode
    ensures FirstPolicy(session, bean.parentPath) == Ok(Some(bean.acl))
  {
  }

  /** A path built from a parent and a name other than `REPO_POLICY_NODE` is never the repository-level policy path. */
  lemma ChildPathNotRepoPolicy(parent: Path, name: string)
    requires name != REPO_POLICY_NODE
    ensures ChildPath(parent, name) != ROOT_REPO_POLICY_NODE
  {
    var c := ChildPath(parent, name);
    if parent == "/" || parent == "" {
      assert c == "/" + name && c[1..] == name;
      assert ROOT_REPO_POLICY_NODE[1..] == REPO_POLICY_NODE;
    } else {
      assert |parent| < |c| && c[|parent|] == '/';
      assert forall k :: 0 <= k < |REPO_POLICY_NODE| ==> REPO_POLICY_NODE[k] != '/';
      assert forall k :: 1 <= k < |ROOT_REPO_POLICY_NODE| ==> ROOT_REPO_POLICY_NODE[k] == REPO_POLICY_NODE[k - 1];
    }
  }

  /**
   * In a repository shaped as a tree, a bean has no parent path exactly when
   * its jcr path is the repository-level policy path.
   */
  lemma NoParentIffRepoPolicy(session: Session, entry: Path, bean: AclBean)
    requires WellFormed(session)
    requires EntryAcl(session, entry) == Ok(Some(bean))
    ensures bean.parentPath.None? <==> bean.jcrPath == ROOT_REPO_POLICY_NODE
  {
    EntryAclLocation(session, entry, bean);
    var aclNode := ParentOf(session, entry).value;
    if bean.parentPath.Some? {
      var name := NameOf(session, aclNode).value;
      ChildPathNotRepoPolicy(session.nodes[aclNode].parent.value, name);
    }
  }

  /**
   * The body of the loop of `buildAclBeansFromNodeSet` after the principal
   * is recorded: the ACL node is the entry's parent, its location decides
   * the path the ACL is effective on and the path recorded, and the first
   * policy there is the ACL; `None` when that policy is `null`.
   */
  method LocateAcl(session: Session, allowOrDenyNode: Path) returns (r: Result<Option<AclBean>, Error>)
    ensures r == EntryAcl(session, allowOrDenyNode)
  {
    var aclNode := ParentOf(session, allowOrDenyNode);
    if aclNode.Err? {
      return Err(aclNode.error);
    }
    var aclName := NameOf(session, aclNode.value);
    if aclName.Err? {
      return Err(aclName.error);
    }
    var aclEffectiveOnPath: Option<Path>;
    var jcrPathAcl: Path;
    if REPO_POLICY_NODE != aclName.value {
      var effective := ParentOf(session, aclNode.value);
      if effective.Err? {
        return Err(effective.error);
      }
      aclEffectiveOnPath := Some(effective.value);
      jcrPathAcl := aclNode.value;
    } else {
      aclEffectiveOnPath := None;
      jcrPathAcl := ROOT_REPO_POLICY_NODE;
    }
    var acl := FirstPolicy(session, aclEffectiveOnPath);
    if acl.Err? {
      return Err(acl.error);
    }
    if acl.value.None? {
      return Ok(None);
    }
    return Ok(Some(AclBean(aclEffectiveOnPath, jcrPathAcl, acl.value.value)));
  }

  /**
   * `buildAclBeansFromNodeSet`: for each entry node, records its principal
   * in the output set, then locates its ACL and adds the bean to a
   * `TreeSet` unless the ACL lookup gives `null`. `principals` is the
   * output set as the call leaves it, also when it throws.
   */
  method BuildAclBeansFromNodeSet(session: Session, nodeSet: seq<Path>, principalIdsToBeFilled: set<string>,
                                  sameBean: (AclBean, AclBean) -> bool)
    returns (r: Result<seq<AclBean>, Error>, principals: set<string>)
    ensures (r, principals) == BuildOutcome(session, nodeSet, principalIdsToBeFilled, sameBean)
  {
    principals := principalIdsToBeFilled;
    var aMgr := session.accessControlManagerFailure;
    if aMgr.Some? {
      return Err(RepositoryException(aMgr.value)), principals;
    }
    var aclSet: seq<AclBean> := [];
    ghost var beans: seq<AclBean> := [];
    var i := 0;
    while i < |nodeSet|
      invariant 0 <= i <= |nodeSet|
      invariant BuildFrom(session, nodeSet[i..], beans, principals) == BuildSpec(session, nodeSet, principalIdsToBeFilled)
      invariant aclSet == Dedup(sameBean, beans)
    {
      var allowOrDenyNode := nodeSet[i];
      assert nodeSet[i..][0] == allowOrDenyNode && nodeSet[i..][1..] == nodeSet[i + 1..];
      var principalId := PrincipalNameOf(session, allowOrDenyNode);
      if principalId.Err? {
        return Err(principalId.error), principals;
      }
      principals := principals + {principalId.value};
      var acl := LocateAcl(session, allowOrDenyNode);
      if acl.Err? {
        return Err(acl.error), principals;
      }
      if acl.value.None? {
        i := i + 1;
        continue;
      }
      var aclBean := acl.value.value;
      assert (beans + [aclBean])[..|beans|] == beans;
      if !(exists kept :: kept in aclSet && sameBean(aclBean, kept)) {
        aclSet := aclSet + [aclBean];
      }
      beans := beans + [aclBean];
      i := i + 1;
    }
    return Ok(aclSet), principals;
  }

  /**
   * The outer loop of `getAuthorizablesAcls`: one statement per batch of at
   * most 100 ids until the iterator is drained, the entry nodes found merged
   * into a `LinkedHashSet`. A failing query ends the loop with its exception.
   * `statements` are the statements issued.
   */
  method CollectBatchNodes(session: Session, authorizableIds: seq<string>)
    returns (r: Result<seq<Path>, Error>, ghost statements: seq<string>)
    ensures statements == BatchStatementsIssued(session, Batches(authorizableIds, ID_BATCH_LIMIT))
    ensures BatchesFound(session, Batches(authorizableIds, ID_BATCH_LIMIT), {}).Err? ==>
      r == Err(BatchesFound(session, Batches(authorizableIds, ID_BATCH_LIMIT), {}).error)
    ensures BatchesFound(session, Batches(authorizableIds, ID_BATCH_LIMIT), {}).Ok? ==>
      && r.Ok?
      && NoDuplicates(r.value)
      && forall n :: n in r.value <==> n in BatchesFound(session, Batches(authorizableIds, ID_BATCH_LIMIT), {}).value
  {
    var nodes: seq<Path> := [];
    var pos := 0;
    ghost var found: set<Path> := {};
    statements := [];
    BatchStatementsFromIssued(session, Batches(authorizableIds, ID_BATCH_LIMIT), []);
    while pos < |authorizableIds|
      invariant 0 <= pos <= |authorizableIds|
      invariant BatchesFound(session, Batches(authorizableIds[pos..], ID_BATCH_LIMIT), found)
             == BatchesFound(session, Batches(authorizableIds, ID_BATCH_LIMIT), {})
      invariant BatchStatementsFrom(session, Batches(authorizableIds[pos..], ID_BATCH_LIMIT), statements)
             == BatchStatementsFrom(session, Batches(authorizableIds, ID_BATCH_LIMIT), [])
      invariant NoDuplicates(nodes)
      invariant forall n :: n in nodes <==> n in found
      decreases |authorizableIds| - pos
    {
      var query, next := NextBatchStatement(authorizableIds, pos);
      BatchLoopStep(session, authorizableIds, pos, found, statements);
      var resultNodes := GetNodes(session, query, JcrSql2);
      statements := statements + [query];
      if resultNodes.Err? {
        return Err(resultNodes.error), statements;
      }
      nodes := AppendAll(nodes, resultNodes.value);
      found := found + resultNodes.value;
      pos := next;
    }
    assert authorizableIds[pos..] == [];
    return Ok(nodes), statements;
  }

  /** The statement of one turn of the batch loop: the query prefix, then the predicate of the next batch of ids. */
  method NextBatchStatement(ids: seq<string>, pos: nat) returns (query: string, next: nat)
    requires pos < |ids|
    ensures next == pos + Min(|ids| - pos, Cap(ID_BATCH_LIMIT))
    ensures query == BatchStatement(ids[pos..next])
  {
    var idPredicate;
    idPredicate, next := GetAuthorizablesQueryStringBuilder(ids, pos, ID_BATCH_LIMIT);
    query := AUTHORIZABLES_QUERY + idPredicate;
  }

  /**
   * `getAuthorizablesAcls`: the entry nodes of all batches, then
   * `buildAclBeansFromNodeSet` on them. A failing query is thrown as it is,
   * before any principal is recorded. `statements` are the statements
   * issued, one per batch (`AuthorizablesStatementCount`).
   */
  method GetAuthorizablesAcls(session: Session, authorizableIds: seq<string>, principalIdsToBeFilled: set<string>,
                              sameBean: (AclBean, AclBean) -> bool)
    returns (r: Result<seq<AclBean>, Error>, principals: set<string>, ghost nodeSet: seq<Path>, ghost statements: seq<string>)
    ensures statements == BatchStatementsIssued(session, Batches(authorizableIds, ID_BATCH_LIMIT))
    ensures BatchesFound(session, Batches(authorizableIds, ID_BATCH_LIMIT), {}).Err? ==>
      r == Err(BatchesFound(session, Batches(authorizableIds, ID_BATCH_LIMIT), {}).error)
      && principals == principalIdsToBeFilled
    ensures BatchesFound(session, Batches(authorizableIds, ID_BATCH_LIMIT), {}).Ok? ==>
      && NoDuplicates(nodeSet)
      && (forall n :: n in nodeSet <==> n in BatchesFound(session, Batches(authorizableIds, ID_BATCH_LIMIT), {}).value)
      && (r, principals) == BuildOutcome(session, nodeSet, principalIdsToBeFilled, sameBean)
  {
    var nodes;
    nodes, statements := CollectBatchNodes(session, authorizableIds);
    if nodes.Err? {
      return Err(nodes.error), principalIdsToBeFilled, [], statements;
    }
    nodeSet := nodes.value;
    r, principals := BuildAclBeansFromNodeSet(session, nodes.value, principalIdsToBeFilled, sameBean);
  }

}
