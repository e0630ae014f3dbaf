/**
 * The part of a JCR repository session the core reads, as values. A node is
 * identified by its path; `nodes` holds what `getName()`, `getParent()` and
 * the `rep:principalName` property give for each existing node. The query
 * engine and the access-control manager are given functions: their
 * semantics (JCR-SQL2, XPath, policy resolution) are not part of this model.
 */
module Jcr {
  import opened Wrappers
  import opened Exceptions

  type Path = string

  /** What the core reads from one node: its name, its parent's path (none for the root node) and its `rep:principalName` property. */
  datatype NodeRecord = NodeRecord(name: string, parent: Option<Path>, principalName: Option<string>)

  /**
   * One node of the iteration over the root's children: the value `getPath()`
   * returned and the value `hasProperty("rep:AuthorizableFolder")` returned,
   * `None` where that call threw a `RepositoryException`.
   */
  datatype RootChild = RootChild(path: Option<Path>, authorizableFolder: Option<bool>)

  /** `Query.JCR_SQL2` and `Query.XPATH`. */
  datatype Language = JcrSql2 | XPath

  /** An element of the array `AccessControlManager.getPolicies` returns. */
  datatype Policy = JackrabbitAcl(id: nat) | OtherPolicy

  /**
   * `rootChildren` is `None` when `getRootNode().getNodes()` threw; `query`
   * answers a statement with the result rows' paths or the detail of the
   * exception it threw; `policies` answers `getPolicies(path)` (a `null`
   * path asks for the repository-level policy), an array element `None`
   * being a `null` entry. `lookupFailures` maps the paths at which
   * `nodeExists` throws to the exception's detail, and
   * `accessControlManagerFailure` is the detail of the exception
   * `getAccessControlManager()` throws, `None` when it returns a manager.
   */
  datatype Session = Session(
    nodes: map<Path, NodeRecord>,
    rootChildren: Option<seq<RootChild>>,
    query: (string, Language) -> Result<seq<Path>, string>,
    policies: Option<Path> -> Result<seq<Option<Policy>>, string>,
    lookupFailures: map<Path, string>,
    accessControlManagerFailure: Option<string>)

  const ITEM_NOT_FOUND := "ItemNotFoundException"
  const PATH_NOT_FOUND := "PathNotFoundException"

  /** `session.nodeExists(p)`: whether a node is at `p`, or the exception the lookup threw. */
  function NodeExists(session: Session, p: Path): (r: Result<bool, Error>)
    ensures r.Err? <==> p in session.lookupFailures
    ensures r.Err? ==> r.error == RepositoryException(session.lookupFailures[p])
    ensures r.Ok? ==> (r.value <==> p in session.nodes)
  {
    if p in session.lookupFailures then Err(RepositoryException(session.lookupFailures[p]))
    else Ok(p in session.nodes)
  }

  /** `node.getParent().getPath()`; the root node has no parent. */
  function ParentOf(session: Session, n: Path): (r: Result<Path, Error>)
    ensures r.Ok? <==> n in session.nodes && session.nodes[n].parent.Some?
  {
    if n in session.nodes && session.nodes[n].parent.Some? then Ok(session.nodes[n].parent.value)
    else Err(RepositoryException(ITEM_NOT_FOUND))
  }

  /** `node.getName()`. */
  function NameOf(session: Session, n: Path): (r: Result<string, Error>)
    ensures r.Ok? <==> n in session.nodes
  {
    if n in session.nodes then Ok(session.nodes[n].name) else Err(RepositoryException(ITEM_NOT_FOUND))
  }

  /** `node.getProperty("rep:principalName").getValue().getString()`. */
  function PrincipalNameOf(session: Session, n: Path): (r: Result<string, Error>)
    ensures r.Ok? <==> n in session.nodes && session.nodes[n].principalName.Some?
  {
    if n in session.nodes && session.nodes[n].principalName.Some? then Ok(session.nodes[n].principalName.value)
    else Err(RepositoryException(PATH_NOT_FOUND))
  }

  /** The path of the child called `name` of the node at `parent`. */
  function ChildPath(parent: Path, name: string): Path
  {
    if parent == "/" then "/" + name else parent + "/" + name
  }

  /** The repository is a tree: every node but the root sits at its parent's path joined with its own name. */
  ghost predicate WellFormed(session: Session)
  {
    forall p :: p in session.nodes && session.nodes[p].parent.Some? ==>
      p == ChildPath(session.nodes[p].parent.value, session.nodes[p].name)
  }

  /** The rows of one query execution, collected into a set; a failing query is a `RepositoryException`. */
  function NodesOf(session: Session, statement: string, language: Language): Result<set<Path>, Error>
  {
    match session.query(statement, language)
    case Ok(rows) => Ok(set i | 0 <= i < |rows| :: rows[i])
    case Err(detail) => Err(RepositoryException(detail))
  }

}
