/**
 * The interface graph (`generate_graph`) built from an interactions table,
 * the node substitution cost handed to the graph edit distance, and the
 * count of interface residues on chain A (`num_ir`).
 *
 * A graph is a set of node ids, a set of undirected edges (an edge is the
 * set of its one or two endpoints, so a self-loop is a singleton) and the
 * `label` attribute of the nodes that carry one. Every mode adds, row by
 * row, one edge between a query-side id and an interacting-side id; the
 * modes differ in how the ids are composed and in which rows they use.
 */
module InterfaceGraphs {
  import opened Wrappers
  import opened Text
  import opened Contacts

  const AllMode: string := "all"
  const NoAtomsMode: string := "no_atoms"
  const ResNumsMode: string := "res_nums"
  const JustAaMode: string := "just_aa"

  /** The mode and the distance cutoff `generate_graph` uses when none are given. */
  const DefaultMode: string := JustAaMode
  const DefaultCutoff: real := 3.0

  /** The node attribute compared by the substitution cost. */
  const LabelKey: string := "label"

  /** The two node ids one table row contributes: query side, interacting side. */
  datatype Link = Link(qc: string, ic: string)

  /** A row of a four-column selection of the table, as `drop_duplicates` compares it. */
  datatype Key = Key(a: string, b: string, c: string, d: string)

  // ---------------------------------------------------------------------------
  // Node ids and row selections, mode by mode

  /** `all`: chain, amino acid, raw residue number and atom type, with no separator. */
  function AllLink(x: Interaction): (l: Link)
    ensures StartsWith(l.qc, x.qc.chain) && StartsWith(l.ic, x.ic.chain)
  {
    Link(x.qc.chain + x.qc.aa + x.qc.resNum + x.qc.atomType,
         x.ic.chain + x.ic.aa + x.ic.resNum + x.ic.atomType)
  }

  /** `no_atoms`: chain, a comma, amino acid and raw residue number. */
  function NoAtomsLink(x: Interaction): (l: Link)
    ensures StartsWith(l.qc, x.qc.chain + ",") && StartsWith(l.ic, x.ic.chain + ",")
  {
    Link(x.qc.chain + "," + x.qc.aa + x.qc.resNum, x.ic.chain + "," + x.ic.aa + x.ic.resNum)
  }

  /** `res_nums` selects (qc_chain, ic_chain, qc_res_num, ic_map_res_num). */
  function ResNumsKey(x: Interaction): Key
  {
    Key(x.qc.chain, x.ic.chain, x.qc.resNum, x.icMapResNum)
  }

  /** `res_nums` ids: chain, a comma, and the query residue number or the mapped interacting one. */
  function ResNumsLink(k: Key): (l: Link)
    ensures StartsWith(l.qc, k.a + ",") && StartsWith(l.ic, k.b + ",")
  {
    Link(k.a + "," + k.c, k.b + "," + k.d)
  }

  /** `just_aa` selects (qc_chain, qc_aa, ic_chain, ic_aa). */
  function JustAaKey(x: Interaction): Key
  {
    Key(x.qc.chain, x.qc.aa, x.ic.chain, x.ic.aa)
  }

  /** `just_aa` ids: chain, a comma and the amino acid. */
  function JustAaLink(k: Key): (l: Link)
    ensures StartsWith(l.qc, k.a + ",") && StartsWith(l.ic, k.c + ",")
  {
    Link(k.a + "," + k.b, k.c + "," + k.d)
  }

  /** The rows whose distance is strictly below the cutoff, in order. */
  function Nearby(recs: seq<Interaction>, cutoff: real): (kept: seq<Interaction>)
    ensures |kept| <= |recs|
    ensures forall i :: 0 <= i < |kept| ==> kept[i].dist < cutoff && kept[i] in recs
    decreases |recs|
  {
    if recs == [] then []
    else
      var init := Nearby(recs[..|recs| - 1], cutoff);
      var x := recs[|recs| - 1];
      if x.dist < cutoff then init + [x] else init
  }

  /** `drop_duplicates`: the first occurrence of every row, in order. */
  function Distinct<T(==)>(s: seq<T>): (d: seq<T>)
    ensures |d| <= |s|
    decreases |s|
  {
    if s == [] then []
    else
      var init := Distinct(s[..|s| - 1]);
      if s[|s| - 1] in init then init else init + [s[|s| - 1]]
  }

  function ResNumsKeys(recs: seq<Interaction>, cutoff: real): seq<Key>
  {
    var near := Nearby(recs, cutoff);
    Distinct(seq(|near|, i requires 0 <= i < |near| => ResNumsKey(near[i])))
  }

  function JustAaKeys(recs: seq<Interaction>): seq<Key>
  {
    Distinct(seq(|recs|, i requires 0 <= i < |recs| => JustAaKey(recs[i])))
  }

  function AllLinks(recs: seq<Interaction>): seq<Link>
  {
    seq(|recs|, i requires 0 <= i < |recs| => AllLink(recs[i]))
  }

  function NoAtomsLinks(recs: seq<Interaction>): seq<Link>
  {
    seq(|recs|, i requires 0 <= i < |recs| => NoAtomsLink(recs[i]))
  }

  function ResNumsLinks(recs: seq<Interaction>, cutoff: real): seq<Link>
  {
    var keys := ResNumsKeys(recs, cutoff);
    seq(|keys|, i requires 0 <= i < |keys| => ResNumsLink(keys[i]))
  }

  function JustAaLinks(recs: seq<Interaction>): seq<Link>
  {
    var keys := JustAaKeys(recs);
    seq(|keys|, i requires 0 <= i < |keys| => JustAaLink(keys[i]))
  }

  /** The links `generate_graph` adds, in the order it adds them; none for an unknown mode. */
  function Links(mode: string, recs: seq<Interaction>, cutoff: real): (ls: seq<Link>)
    ensures |ls| <= |recs|
    ensures mode == AllMode || mode == NoAtomsMode ==> |ls| == |recs|
    ensures mode != AllMode && mode != NoAtomsMode && mode != ResNumsMode && mode != JustAaMode ==> ls == []
  {
    if mode == AllMode then AllLinks(recs)
    else if mode == NoAtomsMode then NoAtomsLinks(recs)
    else if mode == ResNumsMode then ResNumsLinks(recs, cutoff)
    else if mode == JustAaMode then JustAaLinks(recs)
    else []
  }

  /** The modes that give every node a `label` attribute. */
  predicate Labelled(mode: string)
  {
    mode == ResNumsMode || mode == JustAaMode
  }

  // ---------------------------------------------------------------------------
  // The graph a sequence of links produces

  function Edge(l: Link): set<string>
  {
    {l.qc, l.ic}
  }

  function EdgesOf(ls: seq<Link>): set<set<string>>
    decreases |ls|
  {
    if ls == [] then {} else EdgesOf(ls[..|ls| - 1]) + {Edge(ls[|ls| - 1])}
  }

  function NodesOf(ls: seq<Link>): set<string>
    decreases |ls|
  {
    if ls == [] then {} else NodesOf(ls[..|ls| - 1]) + {ls[|ls| - 1].qc, ls[|ls| - 1].ic}
  }

  /** The `label` attributes: each link sets the label of both its nodes to their ids. */
  function LabelsOf(ls: seq<Link>): map<string, string>
    decreases |ls|
  {
    if ls == [] then map[]
    else
      var l := ls[|ls| - 1];
      LabelsOf(ls[..|ls| - 1])[l.qc := l.qc][l.ic := l.ic]
  }

  /** An undirected graph whose nodes may carry a `label` attribute. */
  class Graph {
    var nodes: set<string>
    var edges: set<set<string>>
    var labels: map<string, string>

    /** `nx.Graph()`: the empty graph. */
    constructor ()
      ensures nodes == {} && edges == {} && labels == map[]
    {
      nodes, edges, labels := {}, {}, map[];
    }

    /** `add_edge(u, v)`: adds both endpoints when missing and the edge between them. */
    method AddEdge(u: string, v: string)
      modifies this
      ensures nodes == old(nodes) + {u, v}
      ensures edges == old(edges) + {{u, v}}
      ensures labels == old(labels)
    {
      nodes := nodes + {u, v};
      edges := edges + {{u, v}};
    }

    /** `add_nodes_from([(u, {'label': u}), (v, {'label': v})])`. */
    method AddLabelledNodes(u: string, v: string)
      modifies this
      ensures nodes == old(nodes) + {u, v}
      ensures edges == old(edges)
      ensures labels == old(labels)[u := u][v := v]
    {
      nodes := nodes + {u, v};
      labels := labels[u := u][v := v];
    }
  }

  /**
   * generate_graph: the graph of the table in the given mode, and the table
   * itself, unchanged. Without a mode it draws `just_aa`, and the cutoff
   * defaults to 3.
   */
  method GenerateGraph(recs: seq<Interaction>, mode: string := DefaultMode, cutoff: real := DefaultCutoff)
    returns (g: Graph, table: seq<Interaction>)
    ensures fresh(g)
    ensures g.nodes == NodesOf(Links(mode, recs, cutoff))
    ensures g.edges == EdgesOf(Links(mode, recs, cutoff))
    ensures g.labels == if Labelled(mode) then LabelsOf(Links(mode, recs, cutoff)) else map[]
    ensures table == recs
  {
    g := new Graph();
    table := recs;
    if mode == AllMode {
      DrawAll(g, recs);
    } else if mode == NoAtomsMode {
      DrawNoAtoms(g, recs);
    } else if mode == ResNumsMode {
      DrawResNums(g, recs, cutoff);
    } else if mode == JustAaMode {
      DrawJustAa(g, recs);
    }
  }

  /** `all`: one edge per row, between ids made of every interaction parameter. */
  method DrawAll(g: Graph, recs: seq<Interaction>)
    modifies g
    requires g.nodes == {} && g.edges == {} && g.labels == map[]
    ensures g.nodes == NodesOf(AllLinks(recs)) && g.edges == EdgesOf(AllLinks(recs)) && g.labels == map[]
  {
    ghost var ls := AllLinks(recs);
    for p := 0 to |recs|
      invariant g.nodes == NodesOf(ls[..p]) && g.edges == EdgesOf(ls[..p]) && g.labels == map[]
    {
      var select := recs[p];
      var qcNode := select.qc.chain + select.qc.aa + select.qc.resNum + select.qc.atomType;
      var icNode := select.ic.chain + select.ic.aa + select.ic.resNum + select.ic.atomType;
      g.AddEdge(qcNode, icNode);
      assert ls[p] == Link(qcNode, icNode);
      assert ls[..p + 1][..p] == ls[..p];
    }
    assert ls[..|recs|] == ls;
  }

  /** `no_atoms`: one edge per row, between chain-amino-acid-residue ids. */
  method DrawNoAtoms(g: Graph, recs: seq<Interaction>)
    modifies g
    requires g.nodes == {} && g.edges == {} && g.labels == map[]
    ensures g.nodes == NodesOf(NoAtomsLinks(recs)) && g.edges == EdgesOf(NoAtomsLinks(recs)) && g.labels == map[]
  {
    ghost var ls := NoAtomsLinks(recs);
    for p := 0 to |recs|
      invariant g.nodes == NodesOf(ls[..p]) && g.edges == EdgesOf(ls[..p]) && g.labels == map[]
    {
      var select := recs[p];
      var qcNode := select.qc.chain + "," + select.qc.aa + select.qc.resNum;
      var icNode := select.ic.chain + "," + select.ic.aa + select.ic.resNum;
      g.AddEdge(qcNode, icNode);
      assert ls[p] == Link(qcNode, icNode);
      assert ls[..p + 1][..p] == ls[..p];
    }
    assert ls[..|recs|] == ls;
  }

  /** `res_nums`: close contacts only, one labelled edge per distinct residue pair. */
  method DrawResNums(g: Graph, recs: seq<Interaction>, cutoff: real)
    modifies g
    requires g.nodes == {} && g.edges == {} && g.labels == map[]
    ensures g.nodes == NodesOf(ResNumsLinks(recs, cutoff)) && g.edges == EdgesOf(ResNumsLinks(recs, cutoff))
    ensures g.labels == LabelsOf(ResNumsLinks(recs, cutoff))
  {
    ghost var ls := ResNumsLinks(recs, cutoff);
    var select := ResNumsKeys(recs, cutoff);
    for p := 0 to |select|
      invariant g.nodes == NodesOf(ls[..p]) && g.edges == EdgesOf(ls[..p]) && g.labels == LabelsOf(ls[..p])
    {
      var rowselect := select[p];
      var qcNode := rowselect.a + "," + rowselect.c;
      var icNode := rowselect.b + "," + rowselect.d;
      g.AddLabelledNodes(qcNode, icNode);
      g.AddEdge(qcNode, icNode);
      assert ls[p] == Link(qcNode, icNode);
      assert ls[..p + 1][..p] == ls[..p];
    }
    assert ls[..|select|] == ls;
  }

  /** `just_aa`: one labelled edge per distinct pair of chain and amino acid. */
  method DrawJustAa(g: Graph, recs: seq<Interaction>)
    modifies g
    requires g.nodes == {} && g.edges == {} && g.labels == map[]
    ensures g.nodes == NodesOf(JustAaLinks(recs)) && g.edges == EdgesOf(JustAaLinks(recs))
    ensures g.labels == LabelsOf(JustAaLinks(recs))
  {
    ghost var ls := JustAaLinks(recs);
    var select := JustAaKeys(recs);
    for p := 0 to |select|
      invariant g.nodes == NodesOf(ls[..p]) && g.edges == EdgesOf(ls[..p]) && g.labels == LabelsOf(ls[..p])
    {
      var rowselect := select[p];
      var qcNode := rowselect.a + "," + rowselect.b;
      var icNode := rowselect.c + "," + rowselect.d;
      g.AddLabelledNodes(qcNode, icNode);
      g.AddEdge(qcNode, icNode);
      assert ls[p] == Link(qcNode, icNode);
      assert ls[..p + 1][..p] == ls[..p];
    }
    assert ls[..|select|] == ls;
  }

  // ---------------------------------------------------------------------------
  // Properties of the graph

  /** An edge is present exactly when some link joins its endpoints. */
  lemma {:induction false} EdgeMembership(ls: seq<Link>, e: set<string>)
    ensures e in EdgesOf(ls) <==> exists i :: 0 <= i < |ls| && e == Edge(ls[i])
    decreases |ls|
  {
    if ls != [] {
      var init := ls[..|ls| - 1];
      EdgeMembership(init, e);
      if e in EdgesOf(init) {
        var i :| 0 <= i < |init| && e == Edge(init[i]);
        assert e == Edge(ls[i]);
      }
      if exists i :: 0 <= i < |ls| && e == Edge(ls[i]) {
        var i :| 0 <= i < |ls| && e == Edge(ls[i]);
        if i < |init| {
          assert e == Edge(init[i]);
        }
      }
    }
  }

  /** The nodes are exactly the endpoints of the edges: no isolated node, no dangling edge. */
  lemma {:induction false} NodesAreEndpoints(ls: seq<Link>, u: string)
    ensures u in NodesOf(ls) <==> exists e :: e in EdgesOf(ls) && u in e
    decreases |ls|
  {
    if ls != [] {
      var init := ls[..|ls| - 1];
      var last := Edge(ls[|ls| - 1]);
      NodesAreEndpoints(init, u);
      assert last in EdgesOf(ls);
      if u in NodesOf(init) {
        var e :| e in EdgesOf(init) && u in e;
        assert e in EdgesOf(ls);
      }
    }
  }

  /** Both ids of every link are nodes. */
  lemma LinkNodes(ls: seq<Link>, i: nat)
    requires i < |ls|
    ensures ls[i].qc in NodesOf(ls) && ls[i].ic in NodesOf(ls)
  {
    EdgeMembership(ls, Edge(ls[i]));
    NodesAreEndpoints(ls, ls[i].qc);
    NodesAreEndpoints(ls, ls[i].ic);
  }

  /** Each link adds at most one edge. */
  lemma {:induction false} EdgeCount(ls: seq<Link>)
    ensures |EdgesOf(ls)| <= |ls|
    decreases |ls|
  {
    if ls != [] {
      EdgeCount(ls[..|ls| - 1]);
    }
  }

  /** The node set and the edge set depend only on which links occur, not on their order or repeats. */
  lemma SameLinksSameGraph(ls: seq<Link>, ms: seq<Link>)
    requires forall l :: l in ls <==> l in ms
    ensures EdgesOf(ls) == EdgesOf(ms)
    ensures NodesOf(ls) == NodesOf(ms)
  {
    forall e | e in EdgesOf(ls) ensures e in EdgesOf(ms) {
      EdgeMembership(ls, e);
      var i :| 0 <= i < |ls| && e == Edge(ls[i]);
      assert ls[i] in ms;
      var j :| 0 <= j < |ms| && ms[j] == ls[i];
      EdgeMembership(ms, e);
    }
    forall e | e in EdgesOf(ms) ensures e in EdgesOf(ls) {
      EdgeMembership(ms, e);
      var i :| 0 <= i < |ms| && e == Edge(ms[i]);
      assert ms[i] in ls;
      var j :| 0 <= j < |ls| && ls[j] == ms[i];
      EdgeMembership(ls, e);
    }
    forall u ensures u in NodesOf(ls) <==> u in NodesOf(ms) {
      NodesAreEndpoints(ls, u);
      NodesAreEndpoints(ms, u);
    }
  }

  /** Every node a labelled mode creates is labelled with its own id, and only those nodes are. */
  lemma {:induction false} LabelsAreIds(ls: seq<Link>)
    ensures LabelsOf(ls).Keys == NodesOf(ls)
    ensures forall u :: u in LabelsOf(ls) ==> LabelsOf(ls)[u] == u
    decreases |ls|
  {
    if ls != [] {
      LabelsAreIds(ls[..|ls| - 1]);
    }
  }

  /** drop_duplicates keeps exactly the rows that occur, each once. */
  lemma {:induction false} DistinctSpec<T>(s: seq<T>)
    ensures forall x :: x in Distinct(s) <==> x in s
    ensures forall i, j :: 0 <= i < j < |Distinct(s)| ==> Distinct(s)[i] != Distinct(s)[j]
    decreases |s|
  {
    if s != [] {
      var init := s[..|s| - 1];
      DistinctSpec(init);
      assert s == init + [s[|s| - 1]];
    }
  }

  /** A row already present adds nothing to drop_duplicates' result. */
  lemma DistinctRepeat<T>(s: seq<T>, x: T)
    requires x in s
    ensures Distinct(s + [x]) == Distinct(s)
  {
    DistinctSpec(s);
    assert (s + [x])[..|s|] == s;
  }

  lemma NearbyAppend(recs: seq<Interaction>, x: Interaction, cutoff: real)
    ensures Nearby(recs + [x], cutoff) == if x.dist < cutoff then Nearby(recs, cutoff) + [x] else Nearby(recs, cutoff)
  {
    assert (recs + [x])[..|recs|] == recs;
  }

  /** A row is kept by the distance filter exactly when it is strictly closer than the cutoff. */
  lemma {:induction false} NearbyKeeps(recs: seq<Interaction>, cutoff: real, x: Interaction)
    ensures x in Nearby(recs, cutoff) <==> x in recs && x.dist < cutoff
    decreases |recs|
  {
    if recs != [] {
      var init := recs[..|recs| - 1];
      NearbyKeeps(init, cutoff, x);
      assert recs == init + [recs[|recs| - 1]];
    }
  }

  /** `just_aa` draws exactly the graph of its rows without drop_duplicates. */
  lemma JustAaDedupKeepsGraph(recs: seq<Interaction>)
    ensures
      var ls := seq(|recs|, i requires 0 <= i < |recs| => JustAaLink(JustAaKey(recs[i])));
      EdgesOf(JustAaLinks(recs)) == EdgesOf(ls) && NodesOf(JustAaLinks(recs)) == NodesOf(ls)
  {
    var keys := seq(|recs|, i requires 0 <= i < |recs| => JustAaKey(recs[i]));
    var all := seq(|recs|, i requires 0 <= i < |recs| => JustAaLink(JustAaKey(recs[i])));
    assert all == LinksOfKeys(keys, JustAaLink);
    assert JustAaLinks(recs) == LinksOfKeys(Distinct(keys), JustAaLink);
    DistinctKeepsLinks(keys, JustAaLink);
    SameLinksSameGraph(JustAaLinks(recs), all);
  }

  /** `res_nums` draws exactly the graph of its close rows without drop_duplicates. */
  lemma ResNumsDedupKeepsGraph(recs: seq<Interaction>, cutoff: real)
    ensures
      var near := Nearby(recs, cutoff);
      var ls := seq(|near|, i requires 0 <= i < |near| => ResNumsLink(ResNumsKey(near[i])));
      EdgesOf(ResNumsLinks(recs, cutoff)) == EdgesOf(ls) && NodesOf(ResNumsLinks(recs, cutoff)) == NodesOf(ls)
  {
    var near := Nearby(recs, cutoff);
    var keys := seq(|near|, i requires 0 <= i < |near| => ResNumsKey(near[i]));
    var all := seq(|near|, i requires 0 <= i < |near| => ResNumsLink(ResNumsKey(near[i])));
    assert all == LinksOfKeys(keys, ResNumsLink);
    assert ResNumsLinks(recs, cutoff) == LinksOfKeys(Distinct(keys), ResNumsLink);
    DistinctKeepsLinks(keys, ResNumsLink);
    SameLinksSameGraph(ResNumsLinks(recs, cutoff), all);
  }

  /** The links of a sequence of selected rows, one per row. */
  function LinksOfKeys(keys: seq<Key>, f: Key -> Link): (ls: seq<Link>)
    ensures |ls| == |keys|
  {
    seq(|keys|, i requires 0 <= i < |keys| => f(keys[i]))
  }

  /** Dropping duplicate rows keeps every link and adds none. */
  lemma DistinctKeepsLinks(keys: seq<Key>, f: Key -> Link)
    ensures forall l :: l in LinksOfKeys(Distinct(keys), f) <==> l in LinksOfKeys(keys, f)
  {
    var dedup, all := LinksOfKeys(Distinct(keys), f), LinksOfKeys(keys, f);
    DistinctSpec(keys);
    forall l | l in all ensures l in dedup {
      var i :| 0 <= i < |all| && all[i] == l;
      assert keys[i] in keys;
      var j :| 0 <= j < |Distinct(keys)| && Distinct(keys)[j] == keys[i];
      assert dedup[j] == l;
    }
    forall l | l in dedup ensures l in all {
      var j :| 0 <= j < |dedup| && dedup[j] == l;
      assert Distinct(keys)[j] in Distinct(keys);
      var i :| 0 <= i < |keys| && keys[i] == Distinct(keys)[j];
      assert all[i] == l;
    }
  }

  /** Adding a link that is already there changes nothing. */
  lemma RepeatLink(ls: seq<Link>, i: nat)
    requires i < |ls|
    ensures NodesOf(ls + [ls[i]]) == NodesOf(ls)
    ensures EdgesOf(ls + [ls[i]]) == EdgesOf(ls)
    ensures LabelsOf(ls + [ls[i]]) == LabelsOf(ls)
  {
    RepeatLinkNodes(ls, i);
    RepeatLinkEdges(ls, i);
    RepeatLinkLabels(ls, i);
  }

  lemma RepeatLinkNodes(ls: seq<Link>, i: nat)
    requires i < |ls|
    ensures NodesOf(ls + [ls[i]]) == NodesOf(ls)
  {
    var ms := ls + [ls[i]];
    assert ms[..|ls|] == ls;
    LinkNodes(ls, i);
  }

  lemma RepeatLinkEdges(ls: seq<Link>, i: nat)
    requires i < |ls|
    ensures EdgesOf(ls + [ls[i]]) == EdgesOf(ls)
  {
    var ms := ls + [ls[i]];
    assert ms[..|ls|] == ls;
    EdgeMembership(ls, Edge(ls[i]));
  }

  lemma RepeatLinkLabels(ls: seq<Link>, i: nat)
    requires i < |ls|
    ensures LabelsOf(ls + [ls[i]]) == LabelsOf(ls)
  {
    var l := ls[i];
    var ms := ls + [l];
    assert ms[..|ls|] == ls;
    LinkNodes(ls, i);
    LabelsAreIds(ls);
    var m := LabelsOf(ls);
    assert m[l.qc := l.qc] == m;
    assert m[l.ic := l.ic] == m;
  }

  lemma ResNumsRepeat(recs: seq<Interaction>, cutoff: real, i: nat)
    requires i < |recs|
    ensures ResNumsLinks(recs + [recs[i]], cutoff) == ResNumsLinks(recs, cutoff)
  {
    ResNumsKeysRepeat(recs, cutoff, i);
  }

  lemma ResNumsKeysRepeat(recs: seq<Interaction>, cutoff: real, i: nat)
    requires i < |recs|
    ensures ResNumsKeys(recs + [recs[i]], cutoff) == ResNumsKeys(recs, cutoff)
  {
    var x := recs[i];
    NearbyAppend(recs, x, cutoff);
    if x.dist < cutoff {
      var near := Nearby(recs, cutoff);
      var keys := seq(|near|, j requires 0 <= j < |near| => ResNumsKey(near[j]));
      NearbyKeeps(recs, cutoff, x);
      var j :| 0 <= j < |near| && near[j] == x;
      assert keys[j] == ResNumsKey(x);
      assert seq(|near + [x]|, j requires 0 <= j < |near + [x]| => ResNumsKey((near + [x])[j])) == keys + [ResNumsKey(x)];
      DistinctRepeat(keys, ResNumsKey(x));
    }
  }

  lemma JustAaRepeat(recs: seq<Interaction>, i: nat)
    requires i < |recs|
    ensures JustAaLinks(recs + [recs[i]]) == JustAaLinks(recs)
  {
    var more := recs + [recs[i]];
    var keys := seq(|recs|, j requires 0 <= j < |recs| => JustAaKey(recs[j]));
    assert seq(|more|, j requires 0 <= j < |more| => JustAaKey(more[j])) == keys + [keys[i]];
    DistinctRepeat(keys, keys[i]);
  }

  /**
   * Repeating a row of the table changes nothing: the same nodes, the same
   * edges and the same labels, in every mode.
   */
  lemma RepeatAddsNothing(mode: string, recs: seq<Interaction>, cutoff: real, i: nat)
    requires i < |recs|
    ensures NodesOf(Links(mode, recs + [recs[i]], cutoff)) == NodesOf(Links(mode, recs, cutoff))
    ensures EdgesOf(Links(mode, recs + [recs[i]], cutoff)) == EdgesOf(Links(mode, recs, cutoff))
    ensures LabelsOf(Links(mode, recs + [recs[i]], cutoff)) == LabelsOf(Links(mode, recs, cutoff))
  {
    var more := recs + [recs[i]];
    if mode == AllMode {
      assert AllLinks(more) == AllLinks(recs) + [AllLinks(recs)[i]];
      RepeatLink(AllLinks(recs), i);
    } else if mode == NoAtomsMode {
      assert NoAtomsLinks(more) == NoAtomsLinks(recs) + [NoAtomsLinks(recs)[i]];
      RepeatLink(NoAtomsLinks(recs), i);
    } else if mode == ResNumsMode {
      ResNumsRepeat(recs, cutoff, i);
    } else if mode == JustAaMode {
      JustAaRepeat(recs, i);
    }
  }

  /**
   * The graph has no more edges than the table has rows, and an unknown mode
   * gives the empty graph.
   */
  lemma GraphSize(mode: string, recs: seq<Interaction>, cutoff: real)
    ensures |EdgesOf(Links(mode, recs, cutoff))| <= |recs|
    ensures mode !in {AllMode, NoAtomsMode, ResNumsMode, JustAaMode} ==>
              NodesOf(Links(mode, recs, cutoff)) == {} && EdgesOf(Links(mode, recs, cutoff)) == {}
  {
    EdgeCount(Links(mode, recs, cutoff));
  }

  /**
   * In `just_aa` the graph depends only on chains and amino acids: tables that
   * differ in residue numbers, atom types, distances or classes give the same
   * links, and the cutoff is not used.
   */
  lemma JustAaIgnoresDetail(recs: seq<Interaction>, others: seq<Interaction>)
    requires |recs| == |others|
    requires forall i :: 0 <= i < |recs| ==>
               recs[i].qc.chain == others[i].qc.chain && recs[i].qc.aa == others[i].qc.aa &&
               recs[i].ic.chain == others[i].ic.chain && recs[i].ic.aa == others[i].ic.aa
    ensures JustAaLinks(recs) == JustAaLinks(others)
  {
    assert JustAaKeys(recs) == JustAaKeys(others) by {
      assert seq(|recs|, i requires 0 <= i < |recs| => JustAaKey(recs[i]))
          == seq(|others|, i requires 0 <= i < |others| => JustAaKey(others[i]));
    }
  }

  /**
   * In `res_nums` a row at or beyond the cutoff adds nothing, and a row strictly
   * within it is always drawn: its two labelled nodes and the edge between them.
   */
  lemma ResNumsCutoff(recs: seq<Interaction>, x: Interaction, cutoff: real)
    ensures x.dist >= cutoff ==> ResNumsLinks(recs + [x], cutoff) == ResNumsLinks(recs, cutoff)
    ensures x.dist < cutoff ==>
              var l := ResNumsLink(ResNumsKey(x));
              var ls := ResNumsLinks(recs + [x], cutoff);
              Edge(l) in EdgesOf(ls) && l.qc in NodesOf(ls) && l.ic in NodesOf(ls) &&
              l.qc in LabelsOf(ls) && l.ic in LabelsOf(ls) && LabelsOf(ls)[l.qc] == l.qc && LabelsOf(ls)[l.ic] == l.ic
  {
    NearbyAppend(recs, x, cutoff);
    if x.dist < cutoff {
      var l := ResNumsLink(ResNumsKey(x));
      var ls := ResNumsLinks(recs + [x], cutoff);
      var near := Nearby(recs + [x], cutoff);
      var keys := seq(|near|, j requires 0 <= j < |near| => ResNumsKey(near[j]));
      assert keys[|near| - 1] == ResNumsKey(x);
      DistinctSpec(keys);
      var j :| 0 <= j < |ResNumsKeys(recs + [x], cutoff)| && ResNumsKeys(recs + [x], cutoff)[j] == ResNumsKey(x);
      assert ls[j] == l;
      EdgeMembership(ls, Edge(l));
      NodesAreEndpoints(ls, l.qc);
      NodesAreEndpoints(ls, l.ic);
      LabelsAreIds(ls);
    }
  }

  /**
   * Joining "A", "ALA", "1", "1HB" and "A", "ALA", "11", "HB" without a
   * separator gives the same `all`-mode id, so distinct atoms can share a node.
   */
  lemma AllModeIdsCollide()
    ensures exists x: Interaction, y: Interaction :: x != y && AllLink(x) == AllLink(y)
  {
    var other := Side("GLY", "5", "B", "CA");
    var x := Interaction(Side("ALA", "1", "A", "1HB"), other, 2.5, "", "0");
    var y := Interaction(Side("ALA", "11", "A", "HB"), other, 2.5, "", "0");
    assert x.qc.resNum != y.qc.resNum;
    assert AllLink(x) == AllLink(y);
  }

  // ---------------------------------------------------------------------------
  // The edit-distance cost and the interface size

  /** A node's attribute dictionary: its `label` when it has one. */
  function Attributes(labels: map<string, string>, u: string): map<string, string>
  {
    if u in labels then map[LabelKey := labels[u]] else map[]
  }

  /**
   * node_subst_cost: 0 when the two labels are equal, 1 otherwise; `None`
   * stands for the KeyError raised when either node has no label.
   */
  function NodeSubstCost(a: map<string, string>, b: map<string, string>): (cost: Option<nat>)
    ensures cost.Some? <==> LabelKey in a && LabelKey in b
    ensures cost.Some? ==> cost.value <= 1
  {
    if LabelKey !in a || LabelKey !in b then None
    else if a[LabelKey] == b[LabelKey] then Some(0)
    else Some(1)
  }

  /** The cost does not depend on the order of its arguments and is zero on a node against itself. */
  lemma SubstCostSymmetric(a: map<string, string>, b: map<string, string>)
    ensures NodeSubstCost(a, b) == NodeSubstCost(b, a)
    ensures LabelKey in a ==> NodeSubstCost(a, a) == Some(0)
    ensures NodeSubstCost(a, b) == Some(0) <==> LabelKey in a && LabelKey in b && a[LabelKey] == b[LabelKey]
  {
  }

  /**
   * On nodes of a generated graph the cost is 0 exactly for the same node and
   * 1 for different nodes in the labelled modes; in `all` and `no_atoms` the
   * nodes have no label and the cost raises a KeyError.
   */
  lemma SubstCostOnGraph(mode: string, recs: seq<Interaction>, cutoff: real, u: string, v: string)
    requires var ls := Links(mode, recs, cutoff); u in NodesOf(ls) && v in NodesOf(ls)
    ensures
      var ls := Links(mode, recs, cutoff);
      var labels := if Labelled(mode) then LabelsOf(ls) else map[];
      NodeSubstCost(Attributes(labels, u), Attributes(labels, v)) ==
        if Labelled(mode) then Some(if u == v then 0 else 1) else None
  {
    LabelsAreIds(Links(mode, recs, cutoff));
  }

  /** The node ids that start with "A": the interface residues on chain A. */
  function ChainA(nodes: set<string>): set<string>
  {
    set u | u in nodes && StartsWith(u, "A")
  }

  /** The interface size is never more than the number of nodes. */
  lemma {:induction false} ChainABound(nodes: set<string>)
    ensures |ChainA(nodes)| <= |nodes|
    decreases |nodes|
  {
    if nodes != {} {
      var u :| u in nodes;
      ChainABound(nodes - {u});
      assert ChainA(nodes) == ChainA(nodes - {u}) + (if StartsWith(u, "A") then {u} else {});
    }
  }

  /** Visiting one more node adds it to the chain-A ids exactly when its id starts with "A". */
  lemma ChainAStep(done: set<string>, key: string)
    requires key !in done
    ensures |ChainA(done + {key})| == |ChainA(done)| + (if StartsWith(key, "A") then 1 else 0)
  {
    if StartsWith(key, "A") {
      assert ChainA(done + {key}) == ChainA(done) + {key};
    } else {
      assert ChainA(done + {key}) == ChainA(done);
    }
  }

  /** num_ir: walk the nodes, collecting those whose id starts with "A", and count them. */
  method NumIr(g: Graph) returns (numIr: nat)
    ensures numIr == |ChainA(g.nodes)|
  {
    var nodes := g.nodes;
    var aChain: seq<string> := [];
    var rest := nodes;
    while rest != {}
      invariant rest <= nodes
      invariant |aChain| == |ChainA(nodes - rest)|
      decreases |rest|
    {
      var key :| key in rest;
      if StartsWith(key, "A") {
        aChain := aChain + [key];
      }
      ChainAStep(nodes - rest, key);
      assert nodes - (rest - {key}) == (nodes - rest) + {key};
      rest := rest - {key};
    }
    assert nodes - rest == nodes;
    numIr := |aChain|;
  }
}
