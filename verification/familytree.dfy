/** The tree builder of `modules/FamilyTreeService.js`: a depth-first
    expansion from a root person over the flat list of people, where the
    parents of a person become the children of its node and, on request,
    the person's own children are added after them. One visited set is
    shared by the whole traversal, so every person appears at most once and
    the expansion ends even when the parent links form a cycle. */
module FamilyTree {
  import opened Common
  import opened Strings
  import opened People
  import opened Dates

  /** A node of the tree handed to the layout. */
  datatype TreeNode = TreeNode(
    id: string,
    name: string,
    birthYear: Option<string>,
    deathYear: Option<string>,
    imageUrl: Option<string>,
    children: seq<TreeNode>)

  /** The options of `renderTree`; `depth == None` is an absent or
      `undefined` depth. */
  datatype Config = Config(depth: Option<int>, descendants: bool, includeImages: bool)

  /** `Math.max(0, parseInt(cfg.depth || 5))`: a missing depth and the depth
      `0` (which is falsy) both fall back to 5; a negative depth becomes 0. */
  function MaxDepth(cfg: Config): (m: nat)
    ensures cfg.depth.None? || cfg.depth == Some(0) ==> m == 5
    ensures cfg.depth.Some? && cfg.depth.value != 0 ==>
      m >= cfg.depth.value && (m == cfg.depth.value || m == 0)
  {
    var d := match cfg.depth
      case None => 5
      case Some(n) => if n == 0 then 5 else n;
    if d < 0 then 0 else d
  }

  /** `new Map(people.map(p => [p.id, p])).get(id)`: a later entry with the
      same id replaces an earlier one, so the last person listed wins. */
  function Lookup(people: seq<Person>, id: string): (r: Option<Person>)
    ensures r.None? <==> forall i :: 0 <= i < |people| ==> people[i].id != id
    ensures r.Some? ==> r.value.id == id
    ensures r.Some? ==> exists i :: (0 <= i < |people| && people[i] == r.value
                                     && forall j :: i < j < |people| ==> people[j].id != id)
  {
    if |people| == 0 then None
    else if people[|people| - 1].id == id then Some(people[|people| - 1])
    else
      var r := Lookup(people[..|people| - 1], id);
      assert forall i :: 0 <= i < |people| - 1 ==> people[..|people| - 1][i] == people[i];
      r
  }

  /** What the traversal needs besides the ids: the people, the depth bound,
      the two flags, and the image lookup, which stands for the image
      service (`None` when it yields nothing or fails). */
  datatype Env = Env(
    people: seq<Person>,
    maxDepth: nat,
    descendants: bool,
    includeImages: bool,
    image: string -> Option<string>)

  function EnvOf(people: seq<Person>, cfg: Config, image: string -> Option<string>): Env {
    Env(people, MaxDepth(cfg), cfg.descendants, cfg.includeImages, image)
  }

  /** `person.name || person.id`. */
  function DisplayName(p: Person): (r: string)
    ensures p.name != "" ==> r == p.name
    ensures p.name == "" ==> r == p.id
  {
    if p.name != "" then p.name else p.id
  }

  /** The node's image: set only when images are requested and the lookup
      yields a non-empty URL. */
  function NodeImage(env: Env, p: Person): (r: Option<string>)
    ensures r.Some? <==> env.includeImages && env.image(p.id).Some? && env.image(p.id).value != ""
    ensures r.Some? ==> r == env.image(p.id)
  {
    if env.includeImages then
      match env.image(p.id)
      case Some(u) => if u != "" then Some(u) else None
      case None => None
    else None
  }

  /** The non-empty parent ids, father first. */
  function Parents(p: Person): (r: seq<string>)
    ensures forall x :: x in r <==> x != "" && (x == p.fatherId || x == p.motherId)
    ensures IsSubseq(r, [p.fatherId, p.motherId])
  {
    var f := if p.fatherId != "" then [p.fatherId] else [];
    var m := if p.motherId != "" then [p.motherId] else [];
    assert IsSubseq(f, [p.fatherId]) && IsSubseq(m, [p.motherId]);
    SubseqConcat(f, [p.fatherId], m, [p.motherId]);
    assert [p.fatherId] + [p.motherId] == [p.fatherId, p.motherId];
    f + m
  }

  /** The people whose father or mother is `id`, in list order; a person
      whose two parent ids both match is listed once. */
  function ChildrenOf(people: seq<Person>, id: string): (r: seq<Person>)
    ensures forall q :: q in r <==> q in people && (q.fatherId == id || q.motherId == id)
    ensures IsSubseq(r, people)
  {
    if |people| == 0 then []
    else
      var rest := ChildrenOf(people[1..], id);
      assert people == [people[0]] + people[1..];
      if people[0].fatherId == id || people[0].motherId == id then
        [people[0]] + rest
      else
        SubseqCons(rest, people);
        rest
  }

  /** The ids a node's children are built from, in order: the parents, then
      (with `descendants`) the people whose parent the node is. */
  function Candidates(env: Env, p: Person): seq<string> {
    Parents(p) + (if env.descendants then PeopleIds(ChildrenOf(env.people, p.id)) else [])
  }

  function Roots(ts: seq<TreeNode>): (r: seq<string>)
    ensures |r| == |ts| && forall i :: 0 <= i < |ts| ==> r[i] == ts[i].id
  {
    seq(|ts|, i requires 0 <= i < |ts| => ts[i].id)
  }

  /** The ids of a tree in pre-order. */
  function Flatten(t: TreeNode): (r: seq<string>)
    ensures |r| >= 1 && r[0] == t.id
    decreases t, 1
  {
    [t.id] + FlattenList(t.children)
  }

  function FlattenList(ts: seq<TreeNode>): seq<string>
    decreases ts, 0
  {
    if |ts| == 0 then [] else Flatten(ts[0]) + FlattenList(ts[1..])
  }

  /** `_getMaxDepth`: 0 for a leaf, otherwise one more than the highest
      child (see `HeightIsMax`). */
  function Height(t: TreeNode): (h: nat)
    ensures h == 0 <==> |t.children| == 0
    decreases t, 1
  {
    if |t.children| == 0 then 0 else 1 + MaxHeight(t.children)
  }

  function MaxHeight(ts: seq<TreeNode>): nat
    requires |ts| > 0
    decreases ts, 0
  {
    if |ts| == 1 then Height(ts[0])
    else
      var m := MaxHeight(ts[1..]);
      if Height(ts[0]) >= m then Height(ts[0]) else m
  }

  /** `MaxHeight` is the largest height in the list. */
  lemma {:induction false} MaxHeightIsMax(ts: seq<TreeNode>)
    requires |ts| > 0
    ensures forall i :: 0 <= i < |ts| ==> Height(ts[i]) <= MaxHeight(ts)
    ensures exists i :: 0 <= i < |ts| && MaxHeight(ts) == Height(ts[i])
  {
    if |ts| > 1 {
      MaxHeightIsMax(ts[1..]);
      assert forall i :: 1 <= i < |ts| ==> ts[i] == ts[1..][i - 1];
      var k :| 0 <= k < |ts[1..]| && MaxHeight(ts[1..]) == Height(ts[1..][k]);
      assert ts[1..][k] == ts[k + 1];
      if MaxHeight(ts) == Height(ts[0]) {
        assert 0 < |ts|;
      } else {
        assert MaxHeight(ts) == Height(ts[k + 1]);
      }
    } else {
      assert MaxHeight(ts) == Height(ts[0]);
    }
  }

  /** The height of a node is 0 for a leaf and otherwise exceeds the height
      of every child by at least one, and that of some child by exactly one. */
  lemma HeightIsMax(t: TreeNode)
    ensures |t.children| == 0 ==> Height(t) == 0
    ensures forall i :: 0 <= i < |t.children| ==> Height(t.children[i]) < Height(t)
    ensures |t.children| > 0 ==> exists i :: 0 <= i < |t.children| && Height(t) == 1 + Height(t.children[i])
  {
    if |t.children| > 0 {
      MaxHeightIsMax(t.children);
    }
  }

  lemma {:induction false} FlattenListConcat(a: seq<TreeNode>, b: seq<TreeNode>)
    ensures FlattenList(a + b) == FlattenList(a) + FlattenList(b)
  {
    if |a| > 0 {
      assert (a + b)[1..] == a[1..] + b;
      FlattenListConcat(a[1..], b);
    } else {
      assert a + b == b;
    }
  }

  /** `ids` lists, once each, exactly the ids added to the visited set
      between `before` and `after`, none of which was visited before. */
  ghost predicate Fresh(ids: seq<string>, before: set<string>, after: set<string>) {
    && NoDups(ids)
    && (forall x :: x in ids ==> x !in before)
    && after == before + (set x | x in ids)
  }

  lemma FreshEmpty(v: set<string>)
    ensures Fresh(FlattenList([]), v, v)
  {
    assert (set x | x in FlattenList([])) == {};
  }

  lemma FreshConcat(a: seq<string>, b: seq<string>, v0: set<string>, v1: set<string>, v2: set<string>)
    requires Fresh(a, v0, v1) && Fresh(b, v1, v2)
    ensures Fresh(a + b, v0, v2)
  {
    NoDupsConcat(a, b);
  }

  /** Every node of a well-built tree stands for a person of the list: the
      last one listed with the node's id. Its fields are derived from that
      person, and its children are built, in order, from a subsequence of
      the person's candidate ids. */
  ghost predicate WellBuilt(env: Env, t: TreeNode)
    decreases t
  {
    && t.id != ""
    && Lookup(env.people, t.id).Some?
    && NodeOf(env, Lookup(env.people, t.id).value, t)
    && IsSubseq(Roots(t.children), Candidates(env, Lookup(env.people, t.id).value))
    && forall i :: 0 <= i < |t.children| ==> WellBuilt(env, t.children[i])
  }

  /** The fields of the node built for person `p`. */
  ghost predicate NodeOf(env: Env, p: Person, t: TreeNode) {
    && t.id == p.id
    && t.name == DisplayName(p)
    && t.birthYear == WordYear(p.birthDate)
    && t.deathYear == WordYear(p.deathDate)
    && t.imageUrl == NodeImage(env, p)
  }

  /** How many more generations may still be expanded below `depth`. */
  function Budget(maxDepth: nat, depth: nat): nat {
    if depth > maxDepth then 0 else maxDepth + 1 - depth
  }

  datatype Built = Built(node: Option<TreeNode>, visited: set<string>)
  datatype BuiltList = BuiltList(nodes: seq<TreeNode>, visited: set<string>)

  /** `build(id, depth)`: no node for an empty id, an id already visited, a
      depth beyond the bound or an id no person has; otherwise the id is
      marked visited, the father's and then the mother's subtrees are built
      one generation deeper, then (with `descendants`) the subtrees of the
      person's children. */
  function Build(env: Env, id: string, depth: nat, visited: set<string>): (r: Built)
    ensures r.node.None? <==> id == "" || id in visited || depth > env.maxDepth || Lookup(env.people, id).None?
    ensures r.node.None? ==> r.visited == visited
    ensures r.node.Some? ==> r.node.value.id == id && id in r.visited
    decreases Budget(env.maxDepth, depth), 0
  {
    if id == "" || id in visited || depth > env.maxDepth then Built(None, visited)
    else
      match Lookup(env.people, id)
      case None => Built(None, visited)
      case Some(person) =>
        var v1 := visited + {id};
        var ps := BuildList(env, Parents(person), depth + 1, v1);
        var cs := if env.descendants then BuildList(env, PeopleIds(ChildrenOf(env.people, id)), depth + 1, ps.visited)
                  else BuiltList([], ps.visited);
        Built(Some(TreeNode(id, DisplayName(person), WordYear(person.birthDate), WordYear(person.deathDate),
                            NodeImage(env, person), ps.nodes + cs.nodes)),
              cs.visited)
  }

  /** A built node's subtree adds only new, distinct ids to the visited
      set and fits within the depth bound. */
  lemma {:induction false} BuildFresh(env: Env, id: string, depth: nat, visited: set<string>)
    ensures var r := Build(env, id, depth, visited);
      r.node.Some? ==> Fresh(Flatten(r.node.value), visited, r.visited) && depth + Height(r.node.value) <= env.maxDepth
    decreases Budget(env.maxDepth, depth), 0, 1
  {
    if id != "" && id !in visited && depth <= env.maxDepth && Lookup(env.people, id).Some? {
      var person := Lookup(env.people, id).value;
      var ps := BuildList(env, Parents(person), depth + 1, visited + {id});
      var cs := if env.descendants then BuildList(env, PeopleIds(ChildrenOf(env.people, id)), depth + 1, ps.visited)
                else BuiltList([], ps.visited);
      BuildNode(env, id, depth, visited);
      ParentSubtreesFresh(env, person, depth, visited, ps);
      ChildSubtreesFresh(env, person, depth, ps.visited, cs);
      var t := Build(env, id, depth, visited).node.value;
      NodeFresh(id, visited, ps, cs, t);
      HeightOfConcat(t, ps.nodes, cs.nodes, env.maxDepth - depth - 1);
    }
  }

  /** The parent subtrees of a node add only new, distinct ids and fit one
      generation below it. */
  lemma {:induction false} ParentSubtreesFresh(env: Env, person: Person, depth: nat, visited: set<string>,
                                               ps: BuiltList)
    requires depth <= env.maxDepth
    requires ps == BuildList(env, Parents(person), depth + 1, visited + {person.id})
    ensures Fresh(FlattenList(ps.nodes), visited + {person.id}, ps.visited)
    ensures forall i :: 0 <= i < |ps.nodes| ==> depth + 1 + Height(ps.nodes[i]) <= env.maxDepth
    decreases Budget(env.maxDepth, depth), 0, 0
  {
    BuildListFresh(env, Parents(person), depth + 1, visited + {person.id});
  }

  /** The child subtrees of a node add only new, distinct ids and fit one
      generation below it. */
  lemma {:induction false} ChildSubtreesFresh(env: Env, person: Person, depth: nat, v: set<string>, cs: BuiltList)
    requires depth <= env.maxDepth
    requires cs == if env.descendants then BuildList(env, PeopleIds(ChildrenOf(env.people, person.id)), depth + 1, v)
                   else BuiltList([], v)
    ensures Fresh(FlattenList(cs.nodes), v, cs.visited)
    ensures forall i :: 0 <= i < |cs.nodes| ==> depth + 1 + Height(cs.nodes[i]) <= env.maxDepth
    decreases Budget(env.maxDepth, depth), 0, 0
  {
    if env.descendants {
      BuildListFresh(env, PeopleIds(ChildrenOf(env.people, person.id)), depth + 1, v);
    } else {
      FreshEmpty(v);
    }
  }

  /** A built node is well built. */
  lemma {:induction false} BuildWellBuilt(env: Env, id: string, depth: nat, visited: set<string>)
    ensures var r := Build(env, id, depth, visited);
      r.node.Some? ==> WellBuilt(env, r.node.value)
    decreases Budget(env.maxDepth, depth), 0, 1
  {
    if id != "" && id !in visited && depth <= env.maxDepth && Lookup(env.people, id).Some? {
      var person := Lookup(env.people, id).value;
      var ps := BuildList(env, Parents(person), depth + 1, visited + {id});
      var cs := if env.descendants then BuildList(env, PeopleIds(ChildrenOf(env.people, id)), depth + 1, ps.visited)
                else BuiltList([], ps.visited);
      BuildNode(env, id, depth, visited);
      ParentSubtreesWellBuilt(env, person, depth, visited, ps);
      ChildSubtreesWellBuilt(env, person, depth, ps.visited, cs);
      NodeWellBuilt(env, person, ps.nodes, cs.nodes, Build(env, id, depth, visited).node.value);
    }
  }

  /** The parent subtrees of a node are well built and in father, mother order. */
  lemma {:induction false} ParentSubtreesWellBuilt(env: Env, person: Person, depth: nat, visited: set<string>,
                                                   ps: BuiltList)
    requires depth <= env.maxDepth
    requires ps == BuildList(env, Parents(person), depth + 1, visited + {person.id})
    ensures IsSubseq(Roots(ps.nodes), Parents(person))
    ensures forall i :: 0 <= i < |ps.nodes| ==> WellBuilt(env, ps.nodes[i])
    decreases Budget(env.maxDepth, depth), 0, 0
  {
    BuildListWellBuilt(env, Parents(person), depth + 1, visited + {person.id});
  }

  /** With `descendants`, the child subtrees of a node are well built and in
      the order the children are listed; without it there are none. */
  lemma {:induction false} ChildSubtreesWellBuilt(env: Env, person: Person, depth: nat, v: set<string>, cs: BuiltList)
    requires depth <= env.maxDepth
    requires cs == if env.descendants then BuildList(env, PeopleIds(ChildrenOf(env.people, person.id)), depth + 1, v)
                   else BuiltList([], v)
    ensures IsSubseq(Roots(cs.nodes), if env.descendants then PeopleIds(ChildrenOf(env.people, person.id)) else [])
    ensures forall i :: 0 <= i < |cs.nodes| ==> WellBuilt(env, cs.nodes[i])
    decreases Budget(env.maxDepth, depth), 0, 0
  {
    if env.descendants {
      BuildListWellBuilt(env, PeopleIds(ChildrenOf(env.people, person.id)), depth + 1, v);
    }
  }

  /** The node built for a visible person: its fields come from the
      person and its children are the parent subtrees, then the child subtrees. */
  lemma BuildNode(env: Env, id: string, depth: nat, visited: set<string>)
    requires id != "" && id !in visited && depth <= env.maxDepth && Lookup(env.people, id).Some?
    ensures var person := Lookup(env.people, id).value;
      var ps := BuildList(env, Parents(person), depth + 1, visited + {id});
      var cs := if env.descendants then BuildList(env, PeopleIds(ChildrenOf(env.people, id)), depth + 1, ps.visited)
                else BuiltList([], ps.visited);
      var r := Build(env, id, depth, visited);
      && r.node.Some? && NodeOf(env, person, r.node.value)
      && r.node.value.children == ps.nodes + cs.nodes && r.visited == cs.visited
  {
  }

  /** The node's own id followed by its children's ids is fresh. */
  lemma NodeFresh(id: string, visited: set<string>, ps: BuiltList, cs: BuiltList, t: TreeNode)
    requires id !in visited && t.id == id && t.children == ps.nodes + cs.nodes
    requires Fresh(FlattenList(ps.nodes), visited + {id}, ps.visited)
    requires Fresh(FlattenList(cs.nodes), ps.visited, cs.visited)
    ensures Fresh(Flatten(t), visited, cs.visited)
  {
    FlattenListConcat(ps.nodes, cs.nodes);
    assert Fresh([id], visited, visited + {id});
    FreshConcat(FlattenList(ps.nodes), FlattenList(cs.nodes), visited + {id}, ps.visited, cs.visited);
    FreshConcat([id], FlattenList(t.children), visited, visited + {id}, cs.visited);
  }

  /** A node built from its person over well-built parent and child subtrees is well built. */
  lemma NodeWellBuilt(env: Env, person: Person, a: seq<TreeNode>, b: seq<TreeNode>, t: TreeNode)
    requires person.id != "" && Lookup(env.people, person.id) == Some(person)
    requires IsSubseq(Roots(a), Parents(person))
    requires IsSubseq(Roots(b), if env.descendants then PeopleIds(ChildrenOf(env.people, person.id)) else [])
    requires forall i :: 0 <= i < |a| ==> WellBuilt(env, a[i])
    requires forall i :: 0 <= i < |b| ==> WellBuilt(env, b[i])
    requires NodeOf(env, person, t) && t.children == a + b
    ensures WellBuilt(env, t)
  {
    RootsConcat(a, b);
    SubseqConcat(Roots(a), Parents(person), Roots(b),
                 if env.descendants then PeopleIds(ChildrenOf(env.people, person.id)) else []);
    assert IsSubseq(Roots(t.children), Candidates(env, person));
    AllConcat(a, b, (n: TreeNode) => WellBuilt(env, n));
  }

  lemma RootsConcat(a: seq<TreeNode>, b: seq<TreeNode>)
    ensures Roots(a + b) == Roots(a) + Roots(b)
  {
  }

  /** A node whose children all have height at most `k` has height at most `k + 1`. */
  lemma HeightOfConcat(t: TreeNode, a: seq<TreeNode>, b: seq<TreeNode>, k: int)
    requires t.children == a + b
    requires forall i :: 0 <= i < |a| ==> Height(a[i]) <= k
    requires forall i :: 0 <= i < |b| ==> Height(b[i]) <= k
    ensures Height(t) <= if k < 0 then 0 else k + 1
  {
    HeightIsMax(t);
    if |t.children| > 0 {
      var i :| 0 <= i < |t.children| && Height(t) == 1 + Height(t.children[i]);
      if i < |a| {
        assert t.children[i] == a[i];
      } else {
        assert t.children[i] == b[i - |a|];
      }
    }
  }

  lemma AllConcat<T>(a: seq<T>, b: seq<T>, ok: T -> bool)
    requires forall i :: 0 <= i < |a| ==> ok(a[i])
    requires forall i :: 0 <= i < |b| ==> ok(b[i])
    ensures forall i :: 0 <= i < |a + b| ==> ok((a + b)[i])
  {
    forall i | 0 <= i < |a + b| ensures ok((a + b)[i]) {
      if i >= |a| {
        assert (a + b)[i] == b[i - |a|];
      } else {
        assert (a + b)[i] == a[i];
      }
    }
  }

  /** The `for` loop over a list of ids: each is built in turn at the same
      depth, the visited set threading through, and the nodes that are not
      `null` are kept in order. */
  function BuildList(env: Env, ids: seq<string>, depth: nat, visited: set<string>): (r: BuiltList)
    ensures visited <= r.visited
    ensures |r.nodes| <= |ids|
    decreases Budget(env.maxDepth, depth), 1, |ids|
  {
    if |ids| == 0 then BuiltList([], visited)
    else
      var b := Build(env, ids[0], depth, visited);
      var rest := BuildList(env, ids[1..], depth, b.visited);
      match b.node
      case None => rest
      case Some(t) => BuiltList([t] + rest.nodes, rest.visited)
  }

  /** Building a list of candidates adds only new, distinct ids, each
      subtree within the bound. */
  lemma {:induction false} BuildListFresh(env: Env, ids: seq<string>, depth: nat, visited: set<string>)
    ensures var r := BuildList(env, ids, depth, visited);
      && Fresh(FlattenList(r.nodes), visited, r.visited)
      && forall i :: 0 <= i < |r.nodes| ==> depth + Height(r.nodes[i]) <= env.maxDepth
    decreases Budget(env.maxDepth, depth), 1, |ids|
  {
    if |ids| == 0 {
      FreshEmpty(visited);
    } else {
      var b := Build(env, ids[0], depth, visited);
      BuildFresh(env, ids[0], depth, visited);
      var rest := BuildList(env, ids[1..], depth, b.visited);
      BuildListFresh(env, ids[1..], depth, b.visited);
      match b.node
      case None =>
      case Some(t) =>
        FlattenCons(t, rest.nodes);
        FreshConcat(Flatten(t), FlattenList(rest.nodes), visited, b.visited, rest.visited);
        ConsAll(t, rest.nodes, (n: TreeNode) => depth + Height(n) <= env.maxDepth);
    }
  }

  /** Building a list of candidates keeps their order, and each subtree is well built. */
  lemma {:induction false} BuildListWellBuilt(env: Env, ids: seq<string>, depth: nat, visited: set<string>)
    ensures var r := BuildList(env, ids, depth, visited);
      && IsSubseq(Roots(r.nodes), ids)
      && forall i :: 0 <= i < |r.nodes| ==> WellBuilt(env, r.nodes[i])
    decreases Budget(env.maxDepth, depth), 1, |ids|
  {
    if |ids| > 0 {
      var b := Build(env, ids[0], depth, visited);
      BuildWellBuilt(env, ids[0], depth, visited);
      var rest := BuildList(env, ids[1..], depth, b.visited);
      BuildListWellBuilt(env, ids[1..], depth, b.visited);
      match b.node
      case None =>
        SubseqCons(Roots(rest.nodes), ids);
      case Some(t) =>
        RootsCons(t, rest.nodes, ids);
        ConsAll(t, rest.nodes, (n: TreeNode) => WellBuilt(env, n));
    }
  }

  lemma FlattenCons(t: TreeNode, ts: seq<TreeNode>)
    ensures FlattenList([t] + ts) == Flatten(t) + FlattenList(ts)
  {
    assert ([t] + ts)[0] == t && ([t] + ts)[1..] == ts;
  }

  lemma RootsCons(t: TreeNode, ts: seq<TreeNode>, ids: seq<string>)
    requires |ids| > 0 && t.id == ids[0]
    requires IsSubseq(Roots(ts), ids[1..])
    ensures IsSubseq(Roots([t] + ts), ids)
  {
    var r := Roots([t] + ts);
    assert r[0] == ids[0];
    assert r[1..] == Roots(ts);
  }

  lemma ConsAll<T>(t: T, ts: seq<T>, ok: T -> bool)
    requires ok(t)
    requires forall i :: 0 <= i < |ts| ==> ok(ts[i])
    ensures forall i :: 0 <= i < |[t] + ts| ==> ok(([t] + ts)[i])
  {
    var nodes := [t] + ts;
    forall i | 0 <= i < |nodes| ensures ok(nodes[i]) {
      if i > 0 {
        assert nodes[i] == ts[i - 1];
      }
    }
  }

  /** Whether `Build` at `depth` makes a node for `id` once it is not yet visited. */
  predicate Buildable(env: Env, id: string, depth: nat) {
    id != "" && depth <= env.maxDepth && Lookup(env.people, id).Some?
  }

  /** A first candidate that can be built and is not yet visited becomes the first node. */
  lemma BuildListHead(env: Env, ids: seq<string>, depth: nat, visited: set<string>)
    requires |ids| > 0 && Buildable(env, ids[0], depth) && ids[0] !in visited
    ensures var r := BuildList(env, ids, depth, visited);
      |r.nodes| > 0 && r.nodes[0].id == ids[0]
  {
    assert Build(env, ids[0], depth, visited).node.Some?;
  }

  /** Building `a + b` builds `a`, then `b` from the visited set `a` left. */
  lemma {:induction false} BuildListConcat(env: Env, a: seq<string>, b: seq<string>, depth: nat, visited: set<string>)
    ensures var ra := BuildList(env, a, depth, visited);
      var rb := BuildList(env, b, depth, ra.visited);
      BuildList(env, a + b, depth, visited) == BuiltList(ra.nodes + rb.nodes, rb.visited)
    decreases |a|
  {
    if |a| == 0 {
      assert a + b == b;
    } else {
      var h := Build(env, a[0], depth, visited);
      assert (a + b)[0] == a[0] && (a + b)[1..] == a[1..] + b;
      BuildListConcat(env, a[1..], b, depth, h.visited);
      var ra := BuildList(env, a[1..], depth, h.visited);
      var rb := BuildList(env, b, depth, ra.visited);
      match h.node
      case None =>
      case Some(t) =>
        assert [t] + (ra.nodes + rb.nodes) == ([t] + ra.nodes) + rb.nodes;
    }
  }

  /** A candidate that can be built and is not yet visited when its turn
      comes, after the candidates before it, becomes a node of the list. */
  lemma BuildListTurn(env: Env, ids: seq<string>, depth: nat, visited: set<string>, k: nat)
    requires k < |ids| && Buildable(env, ids[k], depth)
    requires ids[k] !in BuildList(env, ids[..k], depth, visited).visited
    ensures ids[k] in Roots(BuildList(env, ids, depth, visited).nodes)
  {
    assert ids == ids[..k] + ids[k..];
    var ra := BuildList(env, ids[..k], depth, visited);
    BuildListConcat(env, ids[..k], ids[k..], depth, visited);
    BuildListHead(env, ids[k..], depth, ra.visited);
    var rb := BuildList(env, ids[k..], depth, ra.visited);
    var nodes := ra.nodes + rb.nodes;
    assert nodes[|ra.nodes|] == rb.nodes[0];
    assert Roots(nodes)[|ra.nodes|] == ids[k];
  }

  /** The children of a built node are the list built from its person's
      candidates one generation deeper, starting from the visited set with
      the node's own id added. */
  lemma BuildChildren(env: Env, id: string, depth: nat, visited: set<string>)
    requires id != "" && id !in visited && depth <= env.maxDepth && Lookup(env.people, id).Some?
    ensures var r := Build(env, id, depth, visited);
      && r.node.Some?
      && r.node.value.children
         == BuildList(env, Candidates(env, Lookup(env.people, id).value), depth + 1, visited + {id}).nodes
  {
    var person := Lookup(env.people, id).value;
    var v1 := visited + {id};
    BuildNode(env, id, depth, visited);
    var kids := if env.descendants then PeopleIds(ChildrenOf(env.people, id)) else [];
    BuildListConcat(env, Parents(person), kids, depth + 1, v1);
    if !env.descendants {
      assert Parents(person) + kids == Parents(person);
    }
  }

  /** A candidate of a node's person (a parent or, with `descendants`, a
      child) that can be built one generation deeper and is not yet visited
      when its turn comes becomes a child of the node. */
  lemma CandidateBecomesChild(env: Env, id: string, depth: nat, visited: set<string>, k: nat)
    requires id != "" && id !in visited && Lookup(env.people, id).Some?
    requires var cands := Candidates(env, Lookup(env.people, id).value);
      && k < |cands| && Buildable(env, cands[k], depth + 1)
      && cands[k] !in BuildList(env, cands[..k], depth + 1, visited + {id}).visited
    ensures var r := Build(env, id, depth, visited);
      r.node.Some? && Candidates(env, Lookup(env.people, id).value)[k] in Roots(r.node.value.children)
  {
    BuildChildren(env, id, depth, visited);
    BuildListTurn(env, Candidates(env, Lookup(env.people, id).value), depth + 1, visited + {id}, k);
  }

  /** A father that can be built one generation deeper and is neither the
      person itself nor visited becomes the node's first child. */
  lemma FatherFirst(env: Env, id: string, depth: nat, visited: set<string>)
    requires id != "" && id !in visited && Lookup(env.people, id).Some?
    requires var f := Lookup(env.people, id).value.fatherId;
      Buildable(env, f, depth + 1) && f != id && f !in visited
    ensures var r := Build(env, id, depth, visited);
      && r.node.Some? && |r.node.value.children| > 0
      && r.node.value.children[0].id == Lookup(env.people, id).value.fatherId
  {
    var person := Lookup(env.people, id).value;
    BuildNode(env, id, depth, visited);
    BuildListHead(env, Parents(person), depth + 1, visited + {id});
  }

  /** A mother that can be built one generation deeper, is neither the
      person itself nor visited, and was not reached through the father's
      subtree becomes a child of the node. */
  lemma MotherFollows(env: Env, id: string, depth: nat, visited: set<string>)
    requires id != "" && id !in visited && Lookup(env.people, id).Some?
    requires var p := Lookup(env.people, id).value;
      && Buildable(env, p.motherId, depth + 1) && p.motherId != id
      && p.motherId !in Build(env, p.fatherId, depth + 1, visited + {id}).visited
    ensures var r := Build(env, id, depth, visited);
      r.node.Some? && Lookup(env.people, id).value.motherId in Roots(r.node.value.children)
  {
    var p := Lookup(env.people, id).value;
    var v1 := visited + {id};
    var cands := Candidates(env, p);
    if p.fatherId == "" {
      assert cands[0] == p.motherId && cands[..0] == [];
      CandidateBecomesChild(env, id, depth, visited, 0);
    } else {
      assert cands[1] == p.motherId && cands[..1] == [p.fatherId];
      var b := Build(env, p.fatherId, depth + 1, v1);
      assert BuildList(env, [p.fatherId], depth + 1, v1).visited == BuildList(env, [], depth + 1, b.visited).visited;
      CandidateBecomesChild(env, id, depth, visited, 1);
    }
  }

  /** With `descendants`, a child of the person that can be built one
      generation deeper and is not yet visited when its turn comes, after
      the parents and the earlier children, becomes a child of the node. */
  lemma DescendantFollows(env: Env, id: string, depth: nat, visited: set<string>, j: nat)
    requires env.descendants && id != "" && id !in visited && Lookup(env.people, id).Some?
    requires var p := Lookup(env.people, id).value;
      var kids := PeopleIds(ChildrenOf(env.people, id));
      && j < |kids| && Buildable(env, kids[j], depth + 1)
      && kids[j] !in BuildList(env, Parents(p) + kids[..j], depth + 1, visited + {id}).visited
    ensures var r := Build(env, id, depth, visited);
      r.node.Some? && PeopleIds(ChildrenOf(env.people, id))[j] in Roots(r.node.value.children)
  {
    var p := Lookup(env.people, id).value;
    var kids := PeopleIds(ChildrenOf(env.people, id));
    var cands := Candidates(env, p);
    var k := |Parents(p)| + j;
    assert cands[k] == kids[j];
    assert cands[..k] == Parents(p) + kids[..j];
    CandidateBecomesChild(env, id, depth, visited, k);
  }

  /** Every node less than the bound deep has each candidate of its person
      that some person has (the ones `Build` would expand) in `seen`. */
  ghost predicate Closed(env: Env, t: TreeNode, depth: nat, seen: set<string>)
    decreases t
  {
    && (depth < env.maxDepth && Lookup(env.people, t.id).Some? ==>
          forall c :: c in Candidates(env, Lookup(env.people, t.id).value) && Buildable(env, c, depth + 1) ==> c in seen)
    && forall i :: 0 <= i < |t.children| ==> Closed(env, t.children[i], depth + 1, seen)
  }

  lemma {:induction false} ClosedMono(env: Env, t: TreeNode, depth: nat, s1: set<string>, s2: set<string>)
    requires Closed(env, t, depth, s1) && s1 <= s2
    ensures Closed(env, t, depth, s2)
    decreases t
  {
    forall i | 0 <= i < |t.children| ensures Closed(env, t.children[i], depth + 1, s2) {
      ClosedMono(env, t.children[i], depth + 1, s1, s2);
    }
  }

  /** Every candidate a built node could expand ends up visited, at every
      level of its subtree. */
  lemma {:induction false} BuildCloses(env: Env, id: string, depth: nat, visited: set<string>)
    ensures var r := Build(env, id, depth, visited);
      r.node.Some? ==> Closed(env, r.node.value, depth, r.visited)
    decreases Budget(env.maxDepth, depth), 0, 1
  {
    if id != "" && id !in visited && depth <= env.maxDepth && Lookup(env.people, id).Some? {
      var person := Lookup(env.people, id).value;
      var ps := BuildList(env, Parents(person), depth + 1, visited + {id});
      var cs := if env.descendants then BuildList(env, PeopleIds(ChildrenOf(env.people, id)), depth + 1, ps.visited)
                else BuiltList([], ps.visited);
      BuildNode(env, id, depth, visited);
      ParentSubtreesClose(env, person, depth, visited, ps);
      ChildSubtreesClose(env, person, depth, ps.visited, cs);
      NodeCloses(env, person, depth, ps, cs, Build(env, id, depth, visited).node.value);
    }
  }

  lemma {:induction false} ParentSubtreesClose(env: Env, person: Person, depth: nat, visited: set<string>,
                                               ps: BuiltList)
    requires depth <= env.maxDepth
    requires ps == BuildList(env, Parents(person), depth + 1, visited + {person.id})
    ensures forall c :: c in Parents(person) && Buildable(env, c, depth + 1) ==> c in ps.visited
    ensures forall i :: 0 <= i < |ps.nodes| ==> Closed(env, ps.nodes[i], depth + 1, ps.visited)
    decreases Budget(env.maxDepth, depth), 0, 0
  {
    BuildListCovers(env, Parents(person), depth + 1, visited + {person.id});
    BuildListCloses(env, Parents(person), depth + 1, visited + {person.id});
  }

  lemma {:induction false} ChildSubtreesClose(env: Env, person: Person, depth: nat, v: set<string>, cs: BuiltList)
    requires depth <= env.maxDepth
    requires cs == if env.descendants then BuildList(env, PeopleIds(ChildrenOf(env.people, person.id)), depth + 1, v)
                   else BuiltList([], v)
    ensures v <= cs.visited
    ensures forall c :: (c in (if env.descendants then PeopleIds(ChildrenOf(env.people, person.id)) else [])
                        && Buildable(env, c, depth + 1)) ==> c in cs.visited
    ensures forall i :: 0 <= i < |cs.nodes| ==> Closed(env, cs.nodes[i], depth + 1, cs.visited)
    decreases Budget(env.maxDepth, depth), 0, 0
  {
    if env.descendants {
      BuildListCovers(env, PeopleIds(ChildrenOf(env.people, person.id)), depth + 1, v);
      BuildListCloses(env, PeopleIds(ChildrenOf(env.people, person.id)), depth + 1, v);
    }
  }

  /** A node whose candidates were all reached and whose subtrees are closed is closed. */
  lemma NodeCloses(env: Env, person: Person, depth: nat, ps: BuiltList, cs: BuiltList, t: TreeNode)
    requires Lookup(env.people, t.id) == Some(person) && t.children == ps.nodes + cs.nodes
    requires ps.visited <= cs.visited
    requires forall c :: c in Parents(person) && Buildable(env, c, depth + 1) ==> c in ps.visited
    requires forall c :: (c in (if env.descendants then PeopleIds(ChildrenOf(env.people, person.id)) else [])
                         && Buildable(env, c, depth + 1)) ==> c in cs.visited
    requires forall i :: 0 <= i < |ps.nodes| ==> Closed(env, ps.nodes[i], depth + 1, ps.visited)
    requires forall i :: 0 <= i < |cs.nodes| ==> Closed(env, cs.nodes[i], depth + 1, cs.visited)
    ensures Closed(env, t, depth, cs.visited)
  {
    forall i | 0 <= i < |ps.nodes| ensures Closed(env, ps.nodes[i], depth + 1, cs.visited) {
      ClosedMono(env, ps.nodes[i], depth + 1, ps.visited, cs.visited);
    }
    AllConcat(ps.nodes, cs.nodes, (n: TreeNode) => Closed(env, n, depth + 1, cs.visited));
  }

  /** Every candidate of a list that can be built ends up visited. */
  lemma {:induction false} BuildListCovers(env: Env, ids: seq<string>, depth: nat, visited: set<string>)
    ensures var r := BuildList(env, ids, depth, visited);
      forall c :: c in ids && Buildable(env, c, depth) ==> c in r.visited
    decreases |ids|
  {
    if |ids| > 0 {
      var b := Build(env, ids[0], depth, visited);
      BuildListCovers(env, ids[1..], depth, b.visited);
      assert forall c :: c in ids ==> c == ids[0] || c in ids[1..];
    }
  }

  /** Every subtree built for a list is closed. */
  lemma {:induction false} BuildListCloses(env: Env, ids: seq<string>, depth: nat, visited: set<string>)
    ensures var r := BuildList(env, ids, depth, visited);
      forall i :: 0 <= i < |r.nodes| ==> Closed(env, r.nodes[i], depth, r.visited)
    decreases Budget(env.maxDepth, depth), 1, |ids|
  {
    if |ids| > 0 {
      var b := Build(env, ids[0], depth, visited);
      var rest := BuildList(env, ids[1..], depth, b.visited);
      BuildListCloses(env, ids[1..], depth, b.visited);
      assert forall i :: 0 <= i < |BuildList(env, ids[1..], depth, b.visited).nodes| ==> Closed(env, BuildList(env, ids[1..], depth, b.visited).nodes[i], depth, BuildList(env, ids[1..], depth, b.visited).visited);
      match b.node
      case None =>
        assert BuildList(env, ids, depth, visited) == rest;
        assert forall i :: 0 <= i < |rest.nodes| ==> Closed(env, rest.nodes[i], depth, rest.visited);
      case Some(t) =>
        assert BuildList(env, ids, depth, visited) == BuiltList([t] + rest.nodes, rest.visited);
        BuildCloses(env, ids[0], depth, visited);
        ClosedMono(env, t, depth, b.visited, rest.visited);
        ConsAll(t, rest.nodes, (n: TreeNode) => Closed(env, n, depth, rest.visited));
    }
  }

  /** `_buildTreeAsync(personId, cfg)`: no tree for an empty root id or one
      no person has; otherwise a tree rooted at that person in which no id
      occurs twice and no node lies deeper than the depth bound. */
  function BuildTree(people: seq<Person>, cfg: Config, image: string -> Option<string>, rootId: string)
    : (r: Option<TreeNode>)
    ensures r.None? <==> rootId == "" || Lookup(people, rootId).None?
    ensures r.Some? ==> r.value.id == rootId
    ensures r.Some? ==> NoDups(Flatten(r.value))
    ensures r.Some? ==> Height(r.value) <= MaxDepth(cfg)
    ensures r.Some? ==> WellBuilt(EnvOf(people, cfg, image), r.value)
    ensures r.Some? ==> Closed(EnvOf(people, cfg, image), r.value, 0, set x | x in Flatten(r.value))
  {
    if rootId == "" then None
    else
      var env := EnvOf(people, cfg, image);
      BuildFresh(env, rootId, 0, {});
      BuildWellBuilt(env, rootId, 0, {});
      BuildCloses(env, rootId, 0, {});
      var b := Build(env, rootId, 0, {});
      assert b.node.Some? ==> b.visited == set x | x in Flatten(b.node.value);
      b.node
  }

  /** Without `descendants` the children of a node are its person's father
      and mother, in that order, each present only when the id is non-empty
      and resolves to a person. */
  lemma AncestorEdges(env: Env, t: TreeNode)
    requires WellBuilt(env, t) && !env.descendants
    ensures var p := Lookup(env.people, t.id).value;
      && |t.children| <= 2
      && (forall i :: 0 <= i < |t.children| ==>
            var c := t.children[i];
            c.id != "" && (c.id == p.fatherId || c.id == p.motherId) && Lookup(env.people, c.id).Some?)
      && (|t.children| == 2 ==> t.children[0].id == p.fatherId && t.children[1].id == p.motherId)
  {
    var p := Lookup(env.people, t.id).value;
    assert Candidates(env, p) == Parents(p);
    var roots := Roots(t.children);
    SubseqMembers(roots, Parents(p));
    SubseqMembers(Parents(p), [p.fatherId, p.motherId]);
    forall i | 0 <= i < |t.children|
      ensures t.children[i].id != "" && (t.children[i].id == p.fatherId || t.children[i].id == p.motherId)
      ensures Lookup(env.people, t.children[i].id).Some?
    {
      assert roots[i] in roots;
      assert WellBuilt(env, t.children[i]);
    }
    if |t.children| == 2 {
      SubseqSameLength(Parents(p), [p.fatherId, p.motherId]);
      SubseqSameLength(roots, Parents(p));
    }
  }

  /** Every child of a node is one of its person's parents or, with
      `descendants`, a person listing it as father or mother. */
  lemma ChildEdges(env: Env, t: TreeNode)
    requires WellBuilt(env, t)
    ensures var p := Lookup(env.people, t.id).value;
      forall i :: 0 <= i < |t.children| ==>
        var c := t.children[i];
        || (c.id != "" && (c.id == p.fatherId || c.id == p.motherId))
        || (env.descendants && exists q :: q in env.people && q.id == c.id && (q.fatherId == t.id || q.motherId == t.id))
  {
    var p := Lookup(env.people, t.id).value;
    var roots := Roots(t.children);
    SubseqMembers(roots, Candidates(env, p));
    forall i | 0 <= i < |t.children|
      ensures var c := t.children[i];
        || (c.id != "" && (c.id == p.fatherId || c.id == p.motherId))
        || (env.descendants && exists q :: q in env.people && q.id == c.id && (q.fatherId == t.id || q.motherId == t.id))
    {
      assert roots[i] in roots;
      CandidateEdge(env, p, roots[i]);
    }
  }

  /** A candidate id is a parent's id or, with `descendants`, the id of a
      person whose parent `p` is. */
  lemma CandidateEdge(env: Env, p: Person, x: string)
    requires x in Candidates(env, p)
    ensures || (x != "" && (x == p.fatherId || x == p.motherId))
            || (env.descendants && exists q :: q in env.people && q.id == x && (q.fatherId == p.id || q.motherId == p.id))
  {
    if x !in Parents(p) {
      var kids := ChildrenOf(env.people, p.id);
      var k :| 0 <= k < |kids| && PeopleIds(kids)[k] == x;
      assert kids[k] in kids;
    }
  }

  /** Every node lies at most `k` generations below the root. */
  ghost predicate Within(t: TreeNode, k: int)
    decreases t
  {
    k >= 0 && forall i :: 0 <= i < |t.children| ==> Within(t.children[i], k - 1)
  }

  /** The height is the least bound on the depth of the nodes. */
  lemma {:induction false} HeightWithin(t: TreeNode, k: int)
    ensures Height(t) <= k <==> Within(t, k)
    decreases t
  {
    HeightIsMax(t);
    forall i | 0 <= i < |t.children| ensures Height(t.children[i]) <= k - 1 <==> Within(t.children[i], k - 1) {
      HeightWithin(t.children[i], k - 1);
    }
    if Within(t, k) && |t.children| > 0 {
      var i :| 0 <= i < |t.children| && Height(t) == 1 + Height(t.children[i]);
      assert Within(t.children[i], k - 1);
    }
  }

  /** `Math.max(420, (maxDepth + 1) * 120 + 40)`: the drawing height. */
  function SvgHeight(height: nat): (h: nat)
    ensures h >= 420 && h >= (height + 1) * 120 + 40
    ensures h == 420 || h == (height + 1) * 120 + 40
  {
    var needed := (height + 1) * 120 + 40;
    if needed > 420 then needed else 420
  }

  /** Trees of up to three generations share the minimum height; each
      further generation adds one row of 120. */
  lemma SvgHeightGrowth(height: nat)
    ensures SvgHeight(height) == 420 <==> height <= 2
    ensures height >= 2 ==> SvgHeight(height + 1) == SvgHeight(height) + 120 || height == 2
    ensures height >= 3 ==> SvgHeight(height + 1) == SvgHeight(height) + 120
  {
  }

  /** `Math.max(720, container.clientWidth || 900)`: a width of 0 (an
      unlaid-out container) is read as 900. */
  function ContainerWidth(clientWidth: nat): (w: nat)
    ensures w >= 720
    ensures clientWidth == 0 ==> w == 900
    ensures clientWidth > 0 ==> w >= clientWidth && (w == clientWidth || w == 720)
  {
    var cw := if clientWidth == 0 then 900 else clientWidth;
    if cw > 720 then cw else 720
  }
}
