/**
 * The demonstration at the end of mindmupgenerator.py: a map titled "test"
 * gets a child "base1" with measurements A and B (A set twice) and a child
 * "idea2", the two children are linked, and the map is exported with
 * automatic numbering.
 */
module Demo {
  import opened Wrappers
  import opened Strings
  import opened Ideas
  import opened Links
  import opened Codec
  import opened IdTable
  import opened Manager

  /**
   * The demonstration run on three distinct node handles: the export
   * succeeds, numbers the root and its two children 1, 2, 3, keeps their
   * titles and base1's measurements, lists the names A and B under the
   * viewer's key, and puts one link on the root, from base1 (id 2) to idea2
   * (id 3), with the default link style; the registry holds that pair once
   * with the default style.
   */
  method RunDemo(h0: Handle, h1: Handle, h2: Handle) returns (m: MindMupManager, r: Result<WireNode, ManagerError>)
    requires h0 != h1 && h1 != h2 && h0 != h2
    ensures r.Ok? && r.value == RenameConfig(Serialize(m.root))
    ensures m.linksManager == [LinkEntry(h1, h2, DefaultLinkStyle)]
    ensures |Preorder(m.root)| == 3
    ensures Preorder(m.root)[0].handle == h0 && Preorder(m.root)[1].handle == h1 && Preorder(m.root)[2].handle == h2
    ensures Preorder(m.root)[0].id == Some(1) && Preorder(m.root)[1].id == Some(2) && Preorder(m.root)[2].id == Some(3)
    ensures RootLinks(m.root) == [Link(2, 3, DefaultLinkStyle)]
    ensures Preorder(m.root)[0].title == "test" && Preorder(m.root)[1].title == "base1" && Preorder(m.root)[2].title == "idea2"
    ensures Measurements(Preorder(m.root)[1]) == map["A" := "2", "B" := "1"]
    ensures RootConfig(m.root) == ["A", "B"]
    ensures r.value.attr == Some(WireAttr(None, None, None, None, Some(ConfigEntry(WireConfigKey, ["A", "B"]))))
  {
    ghost var nodes;
    m, nodes := BuildDemo(h0, h1, h2);
    r := ExportDemo(m, h0, h1, h2, nodes);
  }

  /** The export at the end of the demonstration, on the tree and registry `BuildDemo` leaves. */
  method ExportDemo(m: MindMupManager, h0: Handle, h1: Handle, h2: Handle, ghost nodes: seq<Idea>) returns (r: Result<WireNode, ManagerError>)
    requires h0 != h1 && h1 != h2 && h0 != h2
    requires m.Valid()
    requires nodes == Preorder(m.root) && |nodes| == 3
    requires nodes[0].handle == h0 && nodes[1].handle == h1 && nodes[2].handle == h2
    requires nodes[0].title == "test" && nodes[1].title == "base1" && nodes[2].title == "idea2"
    requires Measurements(nodes[1]) == map["A" := "2", "B" := "1"] && nodes[1].root.None?
    requires Measurements(nodes[2]) == map[] && nodes[2].root.None?
    requires nodes[0] == m.root && RootConfig(m.root) == []
    requires m.linksManager == [LinkEntry(h1, h2, DefaultLinkStyle)]
    requires HasHandle(nodes, h1) && HasHandle(nodes, h2)
    modifies m
    ensures r.Ok? && r.value == RenameConfig(Serialize(m.root))
    ensures m.linksManager == [LinkEntry(h1, h2, DefaultLinkStyle)]
    ensures |Preorder(m.root)| == 3
    ensures Preorder(m.root)[0].handle == h0 && Preorder(m.root)[1].handle == h1 && Preorder(m.root)[2].handle == h2
    ensures Preorder(m.root)[0].id == Some(1) && Preorder(m.root)[1].id == Some(2) && Preorder(m.root)[2].id == Some(3)
    ensures RootLinks(m.root) == [Link(2, 3, DefaultLinkStyle)]
    ensures Preorder(m.root)[0].title == "test" && Preorder(m.root)[1].title == "base1" && Preorder(m.root)[2].title == "idea2"
    ensures Measurements(Preorder(m.root)[1]) == map["A" := "2", "B" := "1"]
    ensures RootConfig(m.root) == ["A", "B"]
    ensures r.value.attr == Some(WireAttr(None, None, None, None, Some(ConfigEntry(WireConfigKey, ["A", "B"]))))
  {
    ghost var t0 := m.root;
    assert forall e :: e in m.linksManager ==> HasHandle(Preorder(t0), e.from) && HasHandle(Preorder(t0), e.to);
    r := m.ToMindmup(true);
    assert r.Ok? && ResolveLinks(Preorder(m.root), m.linksManager) == Ok(RootLinks(m.root));
    DemoLinks(Preorder(m.root), m.linksManager, RootLinks(m.root), h0, h1, h2);
    DemoContent(t0, m.root, nodes);
  }

  /**
   * What the demonstration's export keeps of the tree it was given: the
   * titles, base1's measurements, and the names A and B as the root's list.
   */
  lemma DemoContent(t0: Idea, t: Idea, nodes: seq<Idea>)
    requires nodes == Preorder(t0) && |nodes| == 3 && t0.root.Some? && RootConfig(t0) == []
    requires nodes[0].title == "test" && nodes[1].title == "base1" && nodes[2].title == "idea2"
    requires Measurements(nodes[1]) == map["A" := "2", "B" := "1"] && nodes[1].root.None?
    requires Measurements(nodes[2]) == map[] && nodes[2].root.None?
    requires StrictlySorted(RootConfig(t)[|RootConfig(t0)|..])
    requires forall x :: x in RootConfig(t)[|RootConfig(t0)|..] <==> x in MeasurementNamesIn(Preorder(t0))
    requires t.root == Some(t0.root.value.(measurementsConfig := Some(RootConfig(t)), links := RootLinks(t)))
    requires EncodedTree(t0.(root := t.root), t, Some(1))
    ensures Preorder(t)[0].title == "test" && Preorder(t)[1].title == "base1" && Preorder(t)[2].title == "idea2"
    ensures Measurements(Preorder(t)[1]) == map["A" := "2", "B" := "1"]
    ensures RootConfig(t) == ["A", "B"]
    ensures RenameConfig(Serialize(t)).attr == Some(WireAttr(None, None, None, None, Some(ConfigEntry(WireConfigKey, ["A", "B"]))))
  {
    var u := t0.(root := t.root);
    assert Preorder(u) == [u] + PreorderAll(t0.ideas);
    assert Preorder(t0) == [t0] + PreorderAll(t0.ideas);
    EncodedKeepsContent(u, t, Some(1), 0);
    EncodedKeepsContent(u, t, Some(1), 1);
    EncodedKeepsContent(u, t, Some(1), 2);
    DemoNames(nodes);
    assert RootConfig(t)[0..] == RootConfig(t);
    DemoConfig(RootConfig(t));
  }

  /** The names collected on the demonstration tree are A and B. */
  lemma DemoNames(nodes: seq<Idea>)
    requires |nodes| == 3 && nodes[0].root.Some?
    requires Measurements(nodes[1]) == map["A" := "2", "B" := "1"] && nodes[1].root.None?
    requires Measurements(nodes[2]) == map[] && nodes[2].root.None?
    ensures MeasurementNamesIn(nodes) == {"A", "B"}
  {
    assert nodes[..1][..0] == [] && nodes[..1][0] == nodes[0];
    assert MeasurementNamesIn(nodes[..1]) == {};
    assert nodes[..2][..1] == nodes[..1] && nodes[..2][1] == nodes[1];
    assert map["A" := "2", "B" := "1"].Keys == {"A", "B"};
    assert MeasurementNamesIn(nodes[..2]) == {"A", "B"};
    assert nodes[..|nodes| - 1] == nodes[..2];
  }

  /** The only strictly sorted listing of the names A and B is ["A", "B"]. */
  lemma DemoConfig(names: seq<string>)
    requires StrictlySorted(names)
    requires forall x :: x in names <==> x in {"A", "B"}
    ensures names == ["A", "B"]
  {
    SortedListingLength(names, {"A", "B"});
    assert LexLess("A", "B");
    SortedListingUnique(names, ["A", "B"]);
  }

  /**
   * The demonstration up to the export: the root "test", then "base1" with
   * A = "2" (the second value written) and B = "1", then "idea2", and the
   * registry holding the pair (base1, idea2) with the default style.
   */
  method BuildDemo(h0: Handle, h1: Handle, h2: Handle) returns (m: MindMupManager, ghost nodes: seq<Idea>)
    requires h0 != h1 && h1 != h2 && h0 != h2
    ensures fresh(m) && m.Valid()
    ensures nodes == Preorder(m.root) && |nodes| == 3
    ensures nodes[0].handle == h0 && nodes[1].handle == h1 && nodes[2].handle == h2
    ensures nodes[0].title == "test" && nodes[1].title == "base1" && nodes[2].title == "idea2"
    ensures Measurements(nodes[1]) == map["A" := "2", "B" := "1"] && nodes[1].root.None?
    ensures Measurements(nodes[2]) == map[] && nodes[2].root.None?
    ensures nodes[0] == m.root && RootConfig(m.root) == []
    ensures m.linksManager == [LinkEntry(h1, h2, DefaultLinkStyle)]
    ensures HasHandle(nodes, h1) && HasHandle(nodes, h2)
  {
    m := new MindMupManager(h0, "test");
    var sub := NewIdea(h1, "base1");
    sub := AddMeasure(sub, "A", "1");
    sub := AddMeasure(sub, "B", "1");
    sub := AddMeasure(sub, "A", "2");
    DemoMeasurements(h1);
    m.AppendIdea(sub);
    m.AppendIdea(NewIdea(h2, "idea2"));
    DemoTree(m.root, h0, sub, NewIdea(h2, "idea2"));
    nodes := Preorder(m.root);
    m.ManageLink(h1, h2, "add", map[]);
    assert AddedStyle(map[]) == DefaultLinkStyle;
    assert nodes[1].handle == h1 && nodes[2].handle == h2;
  }

  /** Writing A = "1", B = "1", A = "2" leaves A = "2" and B = "1". */
  lemma DemoMeasurements(h: Handle)
    ensures Measurements(AddMeasure(AddMeasure(AddMeasure(NewIdea(h, "base1"), "A", "1"), "B", "1"), "A", "2")) ==
      map["A" := "2", "B" := "1"]
    ensures AddMeasure(AddMeasure(AddMeasure(NewIdea(h, "base1"), "A", "1"), "B", "1"), "A", "2").ideas == []
  {
    var n := NewIdea(h, "base1");
    AddMeasureCommutes(AddMeasure(n, "A", "1"), "B", "1", "A", "2");
    AddMeasureOverwrites(n, "A", "1", "2");
    assert Measurements(AddMeasure(n, "A", "2")) == map["A" := "2"];
  }

  /** The tree the demonstration builds walks as the root, then base1, then idea2. */
  lemma DemoTree(t: Idea, h0: Handle, a: Idea, b: Idea)
    requires t.handle == h0 && t.ideas == [a, b] && a.ideas == [] && b.ideas == []
    ensures Preorder(t) == [t, a, b]
  {
    assert Preorder(a) == [a];
    assert Preorder(b) == [b];
    assert [a, b][1..] == [b];
    assert PreorderAll([b]) == [b];
    assert PreorderAll([a, b]) == [a, b];
  }

  /** On the numbered demonstration tree, the one registry entry resolves to the link from 2 to 3. */
  lemma DemoLinks(nodes: seq<Idea>, reg: seq<LinkEntry>, links: seq<Link>, h0: Handle, h1: Handle, h2: Handle)
    requires h0 != h1 && h1 != h2 && h0 != h2
    requires |nodes| == 3 && nodes[0].handle == h0 && nodes[1].handle == h1 && nodes[2].handle == h2
    requires forall i :: 0 <= i < |nodes| ==> nodes[i].id == Some(i + 1)
    requires reg == [LinkEntry(h1, h2, DefaultLinkStyle)]
    requires ResolveLinks(nodes, reg) == Ok(links)
    ensures links == [Link(2, 3, DefaultLinkStyle)]
  {
    var i :| 0 <= i < |nodes| && nodes[i].handle == h1 && nodes[i].id == Some(EndpointId(nodes, h1).value);
    var j :| 0 <= j < |nodes| && nodes[j].handle == h2 && nodes[j].id == Some(EndpointId(nodes, h2).value);
    assert i == 1 && j == 2;
  }
}
