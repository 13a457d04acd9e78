/**
 The project dependency graph: a breadth-first search guards the insertion of
 edges, and the stored graph stays acyclic over every run of the operations.
 */
module Dependencies {

  type Id = nat

  datatype Project = Project(organization: string, deleted: bool)

  /** One stored row: `project` depends on `dependsOn`. */
  datatype Edge = Edge(id: nat, project: Id, dependsOn: Id)

  datatype Outcome = Done | ProjectNotFound | SelfDependency | WouldCycle | AlreadyExists | DependencyNotFound

  // ----- Paths -----

  predicate Linked(edges: seq<Edge>, a: Id, b: Id) {
    exists e | e in edges :: e.project == a && e.dependsOn == b
  }

  /** A path has at least one edge. */
  ghost predicate IsPath(edges: seq<Edge>, path: seq<Id>) {
    2 <= |path| && forall i | 0 <= i < |path| - 1 :: Linked(edges, path[i], path[i + 1])
  }

  ghost predicate PathBetween(edges: seq<Edge>, path: seq<Id>, a: Id, b: Id) {
    IsPath(edges, path) && path[0] == a && path[|path| - 1] == b
  }

  ghost predicate Reaches(edges: seq<Edge>, a: Id, b: Id) {
    exists path :: PathBetween(edges, path, a, b)
  }

  ghost predicate Acyclic(edges: seq<Edge>) {
    forall x :: !Reaches(edges, x, x)
  }

  lemma LinkReaches(edges: seq<Edge>, a: Id, b: Id)
    requires Linked(edges, a, b)
    ensures Reaches(edges, a, b)
  {
    assert PathBetween(edges, [a, b], a, b);
  }

  lemma ReachesTransitive(edges: seq<Edge>, a: Id, b: Id, c: Id)
    requires Reaches(edges, a, b) && Reaches(edges, b, c)
    ensures Reaches(edges, a, c)
  {
    var p :| PathBetween(edges, p, a, b);
    var q :| PathBetween(edges, q, b, c);
    var r := p + q[1..];
    forall i | 0 <= i < |r| - 1 ensures Linked(edges, r[i], r[i + 1]) {
      if |p| <= i + 1 {
        assert r[i] == q[i - |p| + 1] && r[i + 1] == q[i - |p| + 2];
      }
    }
    assert PathBetween(edges, r, a, c);
  }

  lemma MoreEdgesReachMore(edges: seq<Edge>, more: seq<Edge>, a: Id, b: Id)
    requires forall e :: e in edges ==> e in more
    requires Reaches(edges, a, b)
    ensures Reaches(more, a, b)
  {
    var p :| PathBetween(edges, p, a, b);
    forall i | 0 <= i < |p| - 1 ensures Linked(more, p[i], p[i + 1]) {
      assert Linked(edges, p[i], p[i + 1]);
    }
    assert PathBetween(more, p, a, b);
  }

  ghost predicate SameOrReaches(edges: seq<Edge>, a: Id, b: Id) {
    a == b || Reaches(edges, a, b)
  }

  /** A path in the graph with one edge more either avoids that edge or splits around it. */
  lemma {:induction false} PathSplitsAroundNewEdge(edges: seq<Edge>, e: Edge, path: seq<Id>)
    requires IsPath(edges + [e], path)
    ensures
      var a, b := path[0], path[|path| - 1];
      || Reaches(edges, a, b)
      || (SameOrReaches(edges, a, e.project) && SameOrReaches(edges, e.dependsOn, b))
    decreases |path|
  {
    var a, m, b := path[0], path[1], path[|path| - 1];
    assert Linked(edges + [e], a, m);
    if Linked(edges, a, m) {
      LinkReaches(edges, a, m);
    } else {
      assert a == e.project && m == e.dependsOn;
    }
    if 2 < |path| {
      var rest := path[1..];
      assert IsPath(edges + [e], rest) by {
        forall i | 0 <= i < |rest| - 1 ensures Linked(edges + [e], rest[i], rest[i + 1]) {
          assert Linked(edges + [e], path[i + 1], path[i + 2]);
        }
      }
      PathSplitsAroundNewEdge(edges, e, rest);
      if Linked(edges, a, m) {
        if Reaches(edges, m, b) {
          ReachesTransitive(edges, a, m, b);
        } else if m != e.project {
          ReachesTransitive(edges, a, m, e.project);
        }
      }
    }
  }

  /**
   The test made before an edge is added is exact: on an acyclic graph it
   refuses an edge if and only if that edge would close a cycle.
   */
  lemma GuardIsExact(edges: seq<Edge>, e: Edge)
    requires Acyclic(edges)
    ensures Acyclic(edges + [e]) <==> e.project != e.dependsOn && !Reaches(edges, e.dependsOn, e.project)
  {
    var more := edges + [e];
    assert e in more;
    LinkReaches(more, e.project, e.dependsOn);
    if Reaches(edges, e.dependsOn, e.project) {
      MoreEdgesReachMore(edges, more, e.dependsOn, e.project);
      ReachesTransitive(more, e.project, e.dependsOn, e.project);
    }
    if e.project != e.dependsOn && !Reaches(edges, e.dependsOn, e.project) {
      forall x ensures !Reaches(more, x, x) {
        if Reaches(more, x, x) {
          var p :| PathBetween(more, p, x, x);
          PathSplitsAroundNewEdge(edges, e, p);
          if x != e.dependsOn && x != e.project {
            ReachesTransitive(edges, e.dependsOn, x, e.project);
          }
          assert false;
        }
      }
    }
  }

  // ----- The operations on the stored rows -----

  datatype State = State(projects: map<Id, Project>, nextProject: Id, edges: seq<Edge>, nextEdge: nat)

  /** A project is visible to an organization while it is its own and not deleted. */
  predicate Visible(s: State, project: Id, organization: string) {
    project in s.projects && s.projects[project] == Project(organization, false)
  }

  function WithoutEdge(edges: seq<Edge>, id: nat): (rest: seq<Edge>)
    ensures forall e :: e in rest <==> e in edges && e.id != id
  {
    if edges == [] then []
    else (if edges[0].id == id then [] else [edges[0]]) + WithoutEdge(edges[1..], id)
  }

  datatype Op =
    | CreateProject(organization: string)
    | RemoveProject(id: Id, organization: string)
    | AddDependency(project: Id, dependsOn: Id, organization: string)
    | RemoveDependency(project: Id, edge: nat, organization: string)

  /** What each request answers. */
  ghost function Answer(s: State, op: Op): Outcome {
    match op
    case CreateProject(_) => Done
    case RemoveProject(id, org) => if Visible(s, id, org) then Done else ProjectNotFound
    case AddDependency(p, d, org) =>
      if !Visible(s, p, org) then ProjectNotFound
      else if p == d then SelfDependency
      else if !Visible(s, d, org) then ProjectNotFound
      else if Reaches(s.edges, d, p) then WouldCycle
      else if Linked(s.edges, p, d) then AlreadyExists
      else Done
    case RemoveDependency(p, id, org) =>
      if !Visible(s, p, org) then ProjectNotFound
      else if exists e | e in s.edges :: e.id == id && e.project == p then Done
      else DependencyNotFound
  }

  /** The state after a request; a refused request changes nothing. */
  ghost function Step(s: State, op: Op): State {
    if Answer(s, op) != Done then s
    else match op
      case CreateProject(org) =>
        s.(projects := s.projects[s.nextProject := Project(org, false)], nextProject := s.nextProject + 1)
      case RemoveProject(id, org) => s.(projects := s.projects[id := Project(org, true)])
      case AddDependency(p, d, _) => s.(edges := s.edges + [Edge(s.nextEdge, p, d)], nextEdge := s.nextEdge + 1)
      case RemoveDependency(_, id, _) => s.(edges := WithoutEdge(s.edges, id))
  }

  ghost function Run(s: State, ops: seq<Op>): State
    decreases |ops|
  {
    if ops == [] then s else Run(Step(s, ops[0]), ops[1..])
  }

  /** A project of the organization that is not deleted. */
  predicate Sees(s: State, project: Id, organization: string) {
    project in s.projects && s.projects[project].organization == organization && !s.projects[project].deleted
  }

  /**
   What becomes of a request to add an edge, on a good graph: it is refused as a cycle exactly if the
   graph with that edge has one, and carried out exactly if it has none and the pair is not stored yet.
   */
  lemma AddIsExact(s: State, p: Id, d: Id, org: string)
    requires Inv(s)
    ensures
      var r, t := Answer(s, AddDependency(p, d, org)), Step(s, AddDependency(p, d, org));
      var e, stored := Edge(s.nextEdge, p, d), exists f | f in s.edges :: f.project == p && f.dependsOn == d;
      && (r == ProjectNotFound <==> !Sees(s, p, org) || (p != d && !Sees(s, d, org)))
      && (r == SelfDependency <==> Sees(s, p, org) && p == d)
      && (Sees(s, p, org) && Sees(s, d, org) && p != d ==>
            && (r == WouldCycle <==> !Acyclic(s.edges + [e]))
            && (r == AlreadyExists <==> Acyclic(s.edges + [e]) && stored)
            && (r == Done <==> Acyclic(s.edges + [e]) && !stored))
      && t == if r == Done then s.(edges := s.edges + [e], nextEdge := s.nextEdge + 1) else s
  {
    GuardIsExact(s.edges, Edge(s.nextEdge, p, d));
    hide Reaches, Acyclic;
  }

  /** What becomes of the other requests. */
  lemma OtherRequests(s: State, op: Op)
    requires !op.AddDependency?
    ensures
      var r, t := Answer(s, op), Step(s, op);
      match op
      case CreateProject(org) =>
        && r == Done && t.edges == s.edges && t.nextEdge == s.nextEdge && t.nextProject == s.nextProject + 1
        && t.projects == s.projects[s.nextProject := Project(org, false)]
      case RemoveProject(id, org) =>
        && r == (if Sees(s, id, org) then Done else ProjectNotFound)
        && t.edges == s.edges && t.nextEdge == s.nextEdge && t.nextProject == s.nextProject
        && t.projects == if Sees(s, id, org) then s.projects[id := Project(org, true)] else s.projects
      case RemoveDependency(p, id, org) =>
        && (r == ProjectNotFound <==> !Sees(s, p, org))
        && (r == Done <==> Sees(s, p, org) && exists e | e in s.edges :: e.id == id && e.project == p)
        && (r == Done || r == ProjectNotFound || r == DependencyNotFound)
        && t.projects == s.projects && t.nextProject == s.nextProject && t.nextEdge == s.nextEdge
        && (r == Done ==> forall e :: e in t.edges <==> e in s.edges && e.id != id)
        && (r != Done ==> t.edges == s.edges)
  {
  }

  ghost predicate Inv(s: State) {
    && Acyclic(s.edges)
    && (forall p | p in s.projects :: p < s.nextProject)
    && (forall e | e in s.edges :: e.id < s.nextEdge)
    && (forall e, f | e in s.edges && f in s.edges && e.id == f.id :: e == f)
    && (forall e, f | e in s.edges && f in s.edges && e.project == f.project && e.dependsOn == f.dependsOn :: e == f)
    && (forall e | e in s.edges ::
          e.project in s.projects && e.dependsOn in s.projects
          && s.projects[e.project].organization == s.projects[e.dependsOn].organization)
  }

  lemma StepKeepsInv(s: State, op: Op)
    requires Inv(s)
    ensures Inv(Step(s, op))
  {
    if Answer(s, op) == Done {
      match op {
        case CreateProject(org) =>
        case RemoveProject(id, org) =>
        case AddDependency(p, d, org) =>
          GuardIsExact(s.edges, Edge(s.nextEdge, p, d));
        case RemoveDependency(p, id, org) =>
          forall x ensures !Reaches(WithoutEdge(s.edges, id), x, x) {
            if Reaches(WithoutEdge(s.edges, id), x, x) {
              MoreEdgesReachMore(WithoutEdge(s.edges, id), s.edges, x, x);
            }
          }
      }
    }
  }

  /**
   Over every run: the stored relation is acyclic, counting the edges of
   deleted projects too, no pair is stored twice, and an edge never joins
   projects of two organizations.
   */
  lemma {:induction false} RunKeepsInv(s: State, ops: seq<Op>)
    requires Inv(s)
    ensures Inv(Run(s, ops))
    decreases |ops|
  {
    if ops != [] {
      StepKeepsInv(s, ops[0]);
      RunKeepsInv(Step(s, ops[0]), ops[1..]);
    }
  }

  // ----- The stored tables and the code that works on them -----

  ghost function Targets(edges: seq<Edge>): set<Id> {
    set e | e in edges :: e.dependsOn
  }

  class ProjectStore {
    var projects: map<Id, Project>
    var nextProject: Id
    var edges: seq<Edge>
    var nextEdge: nat

    constructor ()
      ensures Current() == State(map[], 0, [], 0) && Inv(Current())
    {
      projects, nextProject, edges, nextEdge := map[], 0, [], 0;
      new;
      forall path | 2 <= |path| ensures !IsPath(edges, path) {
        assert !Linked(edges, path[0], path[1]);
      }
    }

    ghost function Current(): State
      reads this
    {
      State(projects, nextProject, edges, nextEdge)
    }

    /** The rows whose project is in the list, as the targets in table order, duplicates kept. */
    method FindDependencies(current: seq<Id>) returns (next: seq<Id>)
      ensures forall y :: y in next <==> exists x | x in current :: Linked(edges, x, y)
    {
      next := [];
      for i := 0 to |edges|
        invariant forall y :: y in next ==> exists x | x in current :: Linked(edges, x, y)
        invariant forall j | 0 <= j < i && edges[j].project in current :: edges[j].dependsOn in next
      {
        if edges[i].project in current {
          assert Linked(edges, edges[i].project, edges[i].dependsOn);
          next := next + [edges[i].dependsOn];
        }
      }
    }

    /**
     Breadth-first search, whole frontiers at a time. It ends on every graph,
     cyclic or not, and answers exactly whether a path of one or more edges exists.
     */
    method HasDependencyPath(start: Id, target: Id) returns (found: bool)
      ensures found <==> Reaches(edges, start, target)
    {
      var visited: set<Id> := {};
      var frontier := [start];
      while |frontier| != 0
        invariant start in visited || start in frontier
        invariant forall x | x in visited || x in frontier :: SameOrReaches(edges, start, x)
        invariant forall x, y | x in visited && Linked(edges, x, y) :: y != target && (y in visited || y in frontier)
        invariant forall x | x in visited || x in frontier :: x == start || x in Targets(edges)
        decreases Targets(edges) + {start} - visited
      {
        var current := Unvisited(frontier, visited);
        if |current| == 0 {
          ClosedSetHidesTarget(edges, visited, start, target);
          return false;
        }
        assert current[0] in Targets(edges) + {start} - visited;
        var next := FindDependencies(current);
        forall y | y in next ensures Reaches(edges, start, y) && y in Targets(edges) {
          var x :| x in current && Linked(edges, x, y);
          LinkReaches(edges, x, y);
          if x != start {
            ReachesTransitive(edges, start, x, y);
          }
        }
        visited := visited + (set x | x in current);
        if target in next {
          return true;
        }
        frontier := next;
      }
      ClosedSetHidesTarget(edges, visited, start, target);
      return false;
    }

    method Create(organization: string) returns (id: Id)
      modifies this
      ensures id == old(nextProject)
      ensures Current() == Step(old(Current()), CreateProject(organization))
    {
      id := nextProject;
      projects, nextProject := projects[id := Project(organization, false)], nextProject + 1;
    }

    method Remove(id: Id, organization: string) returns (r: Outcome)
      modifies this
      ensures r == Answer(old(Current()), RemoveProject(id, organization))
      ensures Current() == Step(old(Current()), RemoveProject(id, organization))
    {
      if !Ensure(id, organization) { return ProjectNotFound; }
      projects := projects[id := projects[id].(deleted := true)];
      return Done;
    }

    method Add(project: Id, dependsOn: Id, organization: string) returns (r: Outcome)
      modifies this
      ensures r == Answer(old(Current()), AddDependency(project, dependsOn, organization))
      ensures Current() == Step(old(Current()), AddDependency(project, dependsOn, organization))
      ensures
        var more := old(edges) + [Edge(old(nextEdge), project, dependsOn)];
        var seen := Sees(old(Current()), project, organization) && Sees(old(Current()), dependsOn, organization);
        Inv(old(Current())) && seen && project != dependsOn ==>
          && (r == WouldCycle <==> !Acyclic(more))
          && (r == Done <==> Acyclic(more) && !Linked(old(edges), project, dependsOn))
          && edges == if r == Done then more else old(edges)
    {
      hide Inv, Acyclic;
      if Inv(Current()) { AddIsExact(Current(), project, dependsOn, organization); }
      if !Ensure(project, organization) { return ProjectNotFound; }
      if project == dependsOn { return SelfDependency; }
      if !Ensure(dependsOn, organization) { return ProjectNotFound; }
      var cycle := HasDependencyPath(dependsOn, project);
      if cycle { return WouldCycle; }
      if Linked(edges, project, dependsOn) { return AlreadyExists; }
      edges, nextEdge := edges + [Edge(nextEdge, project, dependsOn)], nextEdge + 1;
      return Done;
    }

    method RemoveEdge(project: Id, edge: nat, organization: string) returns (r: Outcome)
      modifies this
      ensures r == Answer(old(Current()), RemoveDependency(project, edge, organization))
      ensures Current() == Step(old(Current()), RemoveDependency(project, edge, organization))
    {
      if !Ensure(project, organization) { return ProjectNotFound; }
      if !exists e | e in edges :: e.id == edge && e.project == project { return DependencyNotFound; }
      edges := WithoutEdge(edges, edge);
      return Done;
    }

    predicate Ensure(project: Id, organization: string)
      reads this
      ensures Ensure(project, organization) == Visible(Current(), project, organization)
    {
      project in projects && projects[project].organization == organization && !projects[project].deleted
    }
  }

  function Unvisited(ids: seq<Id>, visited: set<Id>): (rest: seq<Id>)
    ensures forall x :: x in rest <==> x in ids && x !in visited
  {
    if ids == [] then []
    else (if ids[0] in visited then [] else [ids[0]]) + Unvisited(ids[1..], visited)
  }

  /** A set closed under the edges, none of which enters `target`, shows there is no path to it. */
  lemma ClosedSetHidesTarget(edges: seq<Edge>, closed: set<Id>, start: Id, target: Id)
    requires start in closed
    requires forall x, y | x in closed && Linked(edges, x, y) :: y in closed && y != target
    ensures !Reaches(edges, start, target)
  {
    forall p | IsPath(edges, p) && p[0] == start ensures p[|p| - 1] != target {
      for i := 0 to |p| - 1
        invariant forall j | 0 <= j <= i :: p[j] in closed
      {
        assert Linked(edges, p[i], p[i + 1]);
      }
      assert Linked(edges, p[|p| - 2], p[|p| - 1]);
    }
  }
}
