/** The catalogue of a discovery run: every thesis in the cell its angle names. */
module Catalog {
  import opened Wrappers
  import opened Order

  datatype Facet = Facet(id: string, title: string)
  datatype Dimension = Dimension(id: string, title: string, facets: seq<Facet>)
  datatype Description = Description(dimensionId: string, facetId: string, text: string)
  datatype Thesis = Thesis(id: string, angle: string)

  datatype Member = Member(thesisId: string, duplicateOf: Option<string>)
  datatype Group = Group(title: string, summary: string, representative: Option<string>, members: seq<Member>)
  datatype Curation = Flat | Grouped | Failed
  datatype Tension = Tension(a: string, b: string, note: string)
  datatype CellEntry = CellEntry(
    dimensionId: string, facetId: string, dimensionLabel: string, facetLabel: string, description: string,
    curation: Curation, groups: seq<Group>, tensions: seq<Tension>)

  datatype CatalogError = Missing(id: string) | Repeated(id: string, times: nat) | Unknown(id: string)

  // ----- Sorting of ids

  /** The ids in ascending order, repetitions kept. */
  function SortIds(s: seq<string>): seq<string> {
    Sort(s, Less)
  }

  lemma SortIdsSorts(s: seq<string>)
    ensures multiset(SortIds(s)) == multiset(s) && InOrder(SortIds(s), Less)
  {
    LessIsWeak();
    SortSorts(s, Less);
  }

  // ----- Placement

  function Key(c: CellEntry): string {
    c.dimensionId + ":" + c.facetId
  }

  function Describe(ds: seq<Description>, dimensionId: string, facetId: string): string {
    if ds == [] then ""
    else if ds[0].dimensionId == dimensionId && ds[0].facetId == facetId then ds[0].text
    else Describe(ds[1..], dimensionId, facetId)
  }

  function BlankCell(d: Dimension, f: Facet, ds: seq<Description>): CellEntry {
    CellEntry(d.id, f.id, d.title, f.title, Describe(ds, d.id, f.id), Flat, [], [])
  }

  function Row(d: Dimension, fs: seq<Facet>, ds: seq<Description>): seq<CellEntry> {
    seq(|fs|, i requires 0 <= i < |fs| => BlankCell(d, fs[i], ds))
  }

  /** The cells of the matrix, in its order and without theses. */
  function Blank(dims: seq<Dimension>, ds: seq<Description>): seq<CellEntry> {
    if dims == [] then []
    else Blank(dims[..|dims| - 1], ds) + Row(dims[|dims| - 1], dims[|dims| - 1].facets, ds)
  }

  const OUTSIDE := CellEntry("outside-matrix", "unmatched", "Outside the matrix", "Unmatched angle", "", Flat, [], [])

  /** The first cell whose key is the angle, or the length of the list. */
  function Home(cells: seq<CellEntry>, angle: string): (i: nat)
    ensures i <= |cells| && (i < |cells| ==> Key(cells[i]) == angle)
    ensures forall j :: 0 <= j < i ==> Key(cells[j]) != angle
  {
    if cells == [] then 0 else if Key(cells[0]) == angle then 0 else 1 + Home(cells[1..], angle)
  }

  lemma HomeIs(cells: seq<CellEntry>, angle: string, i: nat)
    requires i <= |cells| && (i < |cells| ==> Key(cells[i]) == angle)
    requires forall j :: 0 <= j < i ==> Key(cells[j]) != angle
    ensures Home(cells, angle) == i
  {
  }

  /** The ids of the theses whose home is cell `i`. */
  function IdsAt(cells: seq<CellEntry>, theses: seq<Thesis>, i: nat): seq<string> {
    if theses == [] then [] else
      var init, last := IdsAt(cells, theses[..|theses| - 1], i), theses[|theses| - 1];
      if Home(cells, last.angle) == i then init + [last.id] else init
  }

  function AllTheses(ids: seq<string>): Group {
    Group("All theses", "", None, seq(|ids|, i requires 0 <= i < |ids| => Member(ids[i], None)))
  }

  function Filled(c: CellEntry, ids: seq<string>): CellEntry {
    if ids == [] then c else c.(groups := c.groups + [AllTheses(SortIds(ids))])
  }

  function WithOutside(blank: seq<CellEntry>, theses: seq<Thesis>): seq<CellEntry> {
    if IdsAt(blank, theses, |blank|) == [] then blank else blank + [OUTSIDE]
  }

  /** The catalogue of a run: the cells of the matrix, and one for the rest if there is a rest. */
  function Catalogue(dims: seq<Dimension>, ds: seq<Description>, theses: seq<Thesis>): seq<CellEntry> {
    var blank := Blank(dims, ds);
    var cells := WithOutside(blank, theses);
    seq(|cells|, i requires 0 <= i < |cells| => Filled(cells[i], IdsAt(blank, theses, i)))
  }

  /** The index of first cells: every key, with the first cell that has it. */
  ghost predicate Indexes(indexOf: map<string, nat>, cells: seq<CellEntry>) {
    forall k :: if k in indexOf then indexOf[k] == Home(cells, k) < |cells| else Home(cells, k) == |cells|
  }

  lemma IndexesAfter(indexOf: map<string, nat>, cells: seq<CellEntry>, c: CellEntry)
    requires Indexes(indexOf, cells)
    ensures Indexes(if Key(c) in indexOf then indexOf else indexOf[Key(c) := |cells|], cells + [c])
  {
    forall k
      ensures Home(cells + [c], k) == if Home(cells, k) < |cells| || k == Key(c) then Home(cells, k) else |cells| + 1
    {
      HomeIs(cells + [c], k, if Home(cells, k) < |cells| || k == Key(c) then Home(cells, k) else |cells| + 1);
    }
  }

  method CollectCells(dims: seq<Dimension>, ds: seq<Description>)
    returns (cells: seq<CellEntry>, indexOf: map<string, nat>)
    ensures cells == Blank(dims, ds) && Indexes(indexOf, cells)
  {
    hide Indexes, Home, Describe;
    cells, indexOf := [], map[];
    NothingIndexed();
    for d := 0 to |dims|
      invariant cells == Blank(dims[..d], ds) && Indexes(indexOf, cells)
    {
      var dim := dims[d];
      assert dims[..d + 1][..d] == dims[..d];
      for f := 0 to |dim.facets|
        invariant cells == Blank(dims[..d], ds) + Row(dim, dim.facets[..f], ds) && Indexes(indexOf, cells)
      {
        var cell := BlankCell(dim, dim.facets[f], ds);
        IndexesAfter(indexOf, cells, cell);
        if Key(cell) !in indexOf { indexOf := indexOf[Key(cell) := |cells|]; }
        assert Row(dim, dim.facets[..f + 1], ds) == Row(dim, dim.facets[..f], ds) + [cell];
        cells := cells + [cell];
      }
      assert dim.facets[..|dim.facets|] == dim.facets;
    }
    assert dims[..|dims|] == dims;
  }

  lemma NothingIndexed()
    ensures Indexes(map[], [])
  {
  }

  method DistributeTheses(cells: seq<CellEntry>, indexOf: map<string, nat>, theses: seq<Thesis>)
    returns (membersOf: seq<seq<string>>, outside: seq<string>)
    requires Indexes(indexOf, cells)
    ensures |membersOf| == |cells| && forall i :: 0 <= i < |cells| ==> membersOf[i] == IdsAt(cells, theses, i)
    ensures outside == IdsAt(cells, theses, |cells|)
  {
    hide Home;
    membersOf, outside := seq(|cells|, _ => []), [];
    for t := 0 to |theses|
      invariant |membersOf| == |cells|
      invariant forall i :: 0 <= i < |cells| ==> membersOf[i] == IdsAt(cells, theses[..t], i)
      invariant outside == IdsAt(cells, theses[..t], |cells|)
    {
      assert theses[..t + 1][..t] == theses[..t];
      if theses[t].angle in indexOf {
        var i := indexOf[theses[t].angle];
        membersOf := membersOf[i := membersOf[i] + [theses[t].id]];
      } else {
        outside := outside + [theses[t].id];
      }
    }
    assert theses[..|theses|] == theses;
  }

  method BuildCatalog(dims: seq<Dimension>, ds: seq<Description>, theses: seq<Thesis>) returns (r: seq<CellEntry>)
    ensures r == Catalogue(dims, ds, theses)
  {
    hide Indexes, Home, IdsAt, SortIds, Blank;
    var cells, indexOf := CollectCells(dims, ds);
    ghost var blank := cells;
    var membersOf, outside := DistributeTheses(cells, indexOf, theses);
    if outside != [] {
      cells := cells + [OUTSIDE];
      membersOf := membersOf + [outside];
    }
    ghost var before := cells;
    assert before == WithOutside(blank, theses);
    for i := 0 to |cells|
      invariant |cells| == |before| == |membersOf|
      invariant forall j :: 0 <= j < i ==> cells[j] == Filled(before[j], IdsAt(blank, theses, j))
      invariant forall j :: i <= j < |cells| ==> cells[j] == before[j]
    {
      if membersOf[i] != [] {
        var ids := SortIds(membersOf[i]);
        cells := cells[i := cells[i].(groups := cells[i].groups + [AllTheses(ids)])];
      }
    }
    return cells;
  }

  // ----- Members

  function GroupMembers(gs: seq<Group>): seq<Member> {
    if gs == [] then [] else GroupMembers(gs[..|gs| - 1]) + gs[|gs| - 1].members
  }

  /** Every member of every group of every cell, in catalogue order. */
  function Members(cells: seq<CellEntry>): seq<Member> {
    if cells == [] then [] else Members(cells[..|cells| - 1]) + GroupMembers(cells[|cells| - 1].groups)
  }

  function MemberIds(ms: seq<Member>): seq<string> {
    seq(|ms|, i requires 0 <= i < |ms| => ms[i].thesisId)
  }

  function Ids(theses: seq<Thesis>): seq<string> {
    seq(|theses|, i requires 0 <= i < |theses| => theses[i].id)
  }

  /** The ids placed in the first `k` cells. */
  ghost function PlacedIn(cells: seq<CellEntry>, theses: seq<Thesis>, k: nat): multiset<string> {
    if k == 0 then multiset{} else PlacedIn(cells, theses, k - 1) + multiset(IdsAt(cells, theses, k - 1))
  }

  lemma {:induction false} PlacedStep(cells: seq<CellEntry>, theses: seq<Thesis>, t: Thesis, k: nat)
    ensures PlacedIn(cells, theses + [t], k)
            == PlacedIn(cells, theses, k) + if Home(cells, t.angle) < k then multiset{t.id} else multiset{}
    decreases k
  {
    hide Home;
    if k > 0 {
      PlacedStep(cells, theses, t, k - 1);
      assert (theses + [t])[..|theses|] == theses;
    }
  }

  lemma {:induction false} EveryThesisPlaced(cells: seq<CellEntry>, theses: seq<Thesis>)
    ensures PlacedIn(cells, theses, |cells| + 1) == multiset(Ids(theses))
    decreases |theses|
  {
    hide Home;
    if theses == [] {
      NothingPlaced(cells, |cells| + 1);
    } else {
      var init, last := theses[..|theses| - 1], theses[|theses| - 1];
      assert theses == init + [last];
      PlacedStep(cells, init, last, |cells| + 1);
      EveryThesisPlaced(cells, init);
      assert Ids(theses) == Ids(init) + [last.id];
      HomeBound(cells, last.angle);
    }
  }

  lemma HomeBound(cells: seq<CellEntry>, angle: string)
    ensures Home(cells, angle) < |cells| + 1
  {
  }

  lemma {:induction false} NothingPlaced(cells: seq<CellEntry>, k: nat)
    ensures PlacedIn(cells, [], k) == multiset{}
    decreases k
  {
    if k > 0 { NothingPlaced(cells, k - 1); }
  }

  lemma GroupOfIds(ids: seq<string>)
    ensures MemberIds(GroupMembers(Filled(OUTSIDE, ids).groups)) == SortIds(ids)
    ensures multiset(SortIds(ids)) == multiset(ids)
  {
    SortIdsSorts(ids);
    var gs := Filled(OUTSIDE, ids).groups;
    if ids == [] {
      assert gs == [];
    } else {
      assert gs[..|gs| - 1] == [] && GroupMembers([]) == [];
    }
  }

  lemma CellContent(dims: seq<Dimension>, ds: seq<Description>, theses: seq<Thesis>, i: nat)
    requires i < |Catalogue(dims, ds, theses)|
    ensures Catalogue(dims, ds, theses)[i].groups == Filled(OUTSIDE, IdsAt(Blank(dims, ds), theses, i)).groups
  {
    hide Home, IdsAt, SortIds, Blank, AllTheses;
    BlankHasNoGroups(dims, ds);
  }

  /** The ids that a cell of the catalogue lists. */
  lemma CellLists(dims: seq<Dimension>, ds: seq<Description>, theses: seq<Thesis>, i: nat)
    requires i < |Catalogue(dims, ds, theses)|
    ensures MemberIds(GroupMembers(Catalogue(dims, ds, theses)[i].groups)) == SortIds(IdsAt(Blank(dims, ds), theses, i))
  {
    hide Home, IdsAt, SortIds, Blank, Catalogue, Filled, GroupMembers, MemberIds;
    CellContent(dims, ds, theses, i);
    GroupOfIds(IdsAt(Blank(dims, ds), theses, i));
  }

  lemma {:induction false} BlankHasNoGroups(dims: seq<Dimension>, ds: seq<Description>)
    ensures forall i :: 0 <= i < |Blank(dims, ds)| ==> Blank(dims, ds)[i].groups == []
  {
    hide Describe;
    if dims != [] { BlankHasNoGroups(dims[..|dims| - 1], ds); }
  }

  lemma {:induction false} PrefixListsPlaced(dims: seq<Dimension>, ds: seq<Description>, theses: seq<Thesis>, k: nat)
    requires k <= |Catalogue(dims, ds, theses)|
    ensures multiset(MemberIds(Members(Catalogue(dims, ds, theses)[..k]))) == PlacedIn(Blank(dims, ds), theses, k)
    decreases k
  {
    hide Home, IdsAt, SortIds, Blank, Filled, Catalogue, GroupMembers, Members, MemberIds;
    var cells := Catalogue(dims, ds, theses);
    if k == 0 {
      assert cells[..0] == [];
      NoMembers();
    } else {
      PrefixListsPlaced(dims, ds, theses, k - 1);
      CellLists(dims, ds, theses, k - 1);
      SortIdsSorts(IdsAt(Blank(dims, ds), theses, k - 1));
      assert cells[..k][..k - 1] == cells[..k - 1];
      MembersOfOneMore(cells[..k]);
    }
  }

  lemma NoMembers()
    ensures MemberIds(Members([])) == []
  {
  }

  lemma MembersOfOneMore(cells: seq<CellEntry>)
    requires cells != []
    ensures MemberIds(Members(cells))
            == MemberIds(Members(cells[..|cells| - 1])) + MemberIds(GroupMembers(cells[|cells| - 1].groups))
  {
    assert Members(cells) == Members(cells[..|cells| - 1]) + GroupMembers(cells[|cells| - 1].groups);
    hide GroupMembers, Members;
    MemberIdsAppend(Members(cells[..|cells| - 1]), GroupMembers(cells[|cells| - 1].groups));
  }

  lemma MemberIdsAppend(ms: seq<Member>, ns: seq<Member>)
    ensures MemberIds(ms + ns) == MemberIds(ms) + MemberIds(ns)
  {
  }

  /** The catalogue lists exactly the theses, each as often as it occurs. */
  lemma CatalogueListsTheses(dims: seq<Dimension>, ds: seq<Description>, theses: seq<Thesis>)
    ensures multiset(MemberIds(Members(Catalogue(dims, ds, theses)))) == multiset(Ids(theses))
    ensures |Members(Catalogue(dims, ds, theses))| == |theses|
  {
    hide Home, IdsAt, SortIds, Filled, Blank, Members;
    var cells, blank := Catalogue(dims, ds, theses), Blank(dims, ds);
    PrefixListsPlaced(dims, ds, theses, |cells|);
    assert cells[..|cells|] == cells;
    EveryThesisPlaced(blank, theses);
    assert PlacedIn(blank, theses, |blank| + 1)
        == PlacedIn(blank, theses, |blank|) + multiset(IdsAt(blank, theses, |blank|));
    assert |multiset(MemberIds(Members(cells)))| == |multiset(Ids(theses))|;
  }

  lemma {:induction false} IdsAtMembers(cells: seq<CellEntry>, theses: seq<Thesis>, i: nat, id: string)
    ensures id in IdsAt(cells, theses, i)
            <==> exists t :: 0 <= t < |theses| && theses[t].id == id && Home(cells, theses[t].angle) == i
    decreases |theses|
  {
    hide Home;
    if theses != [] {
      var n := |theses| - 1;
      IdsAtMembers(cells, theses[..n], i, id);
      assert id in IdsAt(cells, theses, i)
        <==> id in IdsAt(cells, theses[..n], i) || (theses[n].id == id && Home(cells, theses[n].angle) == i);
    }
  }

  predicate Lists(c: CellEntry, id: string) {
    id in MemberIds(GroupMembers(c.groups))
  }

  /** A cell lists an id exactly when a thesis with that id has its home there. */
  lemma ListedAtHome(dims: seq<Dimension>, ds: seq<Description>, theses: seq<Thesis>, i: nat, id: string)
    requires i < |Catalogue(dims, ds, theses)|
    ensures Lists(Catalogue(dims, ds, theses)[i], id)
            <==> exists t :: 0 <= t < |theses| && theses[t].id == id && Home(Blank(dims, ds), theses[t].angle) == i
  {
    hide Home, IdsAt, SortIds, Filled, Blank, Catalogue, GroupMembers;
    CellLists(dims, ds, theses, i);
    var ids := IdsAt(Blank(dims, ds), theses, i);
    SortIdsSorts(ids);
    IdsAtMembers(Blank(dims, ds), theses, i, id);
    assert id in SortIds(ids) <==> id in multiset(SortIds(ids));
    assert id in ids <==> id in multiset(ids);
  }

  /** The first cell that lists an id. */
  function CellOf(cells: seq<CellEntry>, id: string): (r: Option<nat>)
    ensures r.Some? ==> r.value < |cells| && Lists(cells[r.value], id)
    ensures forall j :: 0 <= j < (if r.Some? then r.value else |cells|) ==> !Lists(cells[j], id)
  {
    if cells == [] then None
    else if Lists(cells[0], id) then Some(0)
    else match CellOf(cells[1..], id)
      case Some(i) => Some(i + 1)
      case None => None
  }

  /** Every thesis has a cell: a cell of the matrix with its angle as key, or else the last one. */
  lemma HomeInCatalogue(dims: seq<Dimension>, ds: seq<Description>, theses: seq<Thesis>, t: nat)
    requires t < |theses|
    ensures var (cells, blank) := (Catalogue(dims, ds, theses), Blank(dims, ds));
            var home := Home(blank, theses[t].angle);
            home < |cells| && if home < |blank| then Key(cells[home]) == theses[t].angle
                              else home == |cells| - 1 && Key(cells[home]) == "outside-matrix:unmatched"
  {
    hide IdsAt, SortIds, Blank;
    var blank := Blank(dims, ds);
    IdsAtMembers(blank, theses, |blank|, theses[t].id);
  }

  /** With distinct ids, a thesis is found in its home, and nowhere else. */
  lemma ThesisIsFound(dims: seq<Dimension>, ds: seq<Description>, theses: seq<Thesis>, t: nat)
    requires t < |theses| && NoRepeats(Ids(theses))
    ensures CellOf(Catalogue(dims, ds, theses), theses[t].id) == Some(Home(Blank(dims, ds), theses[t].angle))
    ensures forall i :: 0 <= i < |Catalogue(dims, ds, theses)| ==>
              (Lists(Catalogue(dims, ds, theses)[i], theses[t].id) <==> i == Home(Blank(dims, ds), theses[t].angle))
  {
    hide Home, IdsAt, SortIds, Filled, Blank, Catalogue, GroupMembers, Lists;
    var cells, home := Catalogue(dims, ds, theses), Home(Blank(dims, ds), theses[t].angle);
    HomeInCatalogue(dims, ds, theses, t);
    forall i | 0 <= i < |cells|
      ensures Lists(cells[i], theses[t].id) <==> i == home
    {
      ListedAtHome(dims, ds, theses, i, theses[t].id);
      forall u | 0 <= u < |theses| && theses[u].id == theses[t].id
        ensures u == t
      {
        assert Ids(theses)[u] == Ids(theses)[t];
      }
    }
  }

  // ----- The cells, one by one

  /** The number of cells of the first `d` dimensions. */
  function Offset(dims: seq<Dimension>, d: nat): nat
    requires d <= |dims|
  {
    if d == 0 then 0 else Offset(dims, d - 1) + |dims[d - 1].facets|
  }

  /** The text of the first description that is for the pair, or nothing. */
  ghost predicate IsDescription(ds: seq<Description>, dimensionId: string, facetId: string, text: string) {
    || (text == "" && forall k :: 0 <= k < |ds| ==> !IsFor(ds[k], dimensionId, facetId))
    || exists k :: && 0 <= k < |ds| && IsFor(ds[k], dimensionId, facetId) && ds[k].text == text
                   && forall j :: 0 <= j < k ==> !IsFor(ds[j], dimensionId, facetId)
  }

  predicate IsFor(d: Description, dimensionId: string, facetId: string) {
    d.dimensionId == dimensionId && d.facetId == facetId
  }

  lemma {:induction false} DescribeFinds(ds: seq<Description>, dimensionId: string, facetId: string)
    ensures IsDescription(ds, dimensionId, facetId, Describe(ds, dimensionId, facetId))
    decreases |ds|
  {
    hide IsFor;
    if ds != [] {
      var rest, text := ds[1..], Describe(ds, dimensionId, facetId);
      if IsFor(ds[0], dimensionId, facetId) {
        assert text == ds[0].text by { FirstDescribes(ds, dimensionId, facetId); }
      } else {
        assert text == Describe(rest, dimensionId, facetId) by { FirstDescribes(ds, dimensionId, facetId); }
        DescribeFinds(rest, dimensionId, facetId);
        assert forall j :: 0 < j < |ds| ==> ds[j] == rest[j - 1];
        if k :| && 0 <= k < |rest| && IsFor(rest[k], dimensionId, facetId) && rest[k].text == text
                && forall j :: 0 <= j < k ==> !IsFor(rest[j], dimensionId, facetId) {
          assert IsFor(ds[k + 1], dimensionId, facetId);
        }
      }
    }
  }

  lemma FirstDescribes(ds: seq<Description>, dimensionId: string, facetId: string)
    requires ds != []
    ensures Describe(ds, dimensionId, facetId)
            == if IsFor(ds[0], dimensionId, facetId) then ds[0].text else Describe(ds[1..], dimensionId, facetId)
  {
  }

  lemma {:induction false} BlankAt(dims: seq<Dimension>, ds: seq<Description>, n: nat, d: nat, f: nat)
    requires d < n <= |dims| && f < |dims[d].facets|
    ensures |Blank(dims[..n], ds)| == Offset(dims, n)
    ensures Offset(dims, d) + f < Offset(dims, n)
    ensures Blank(dims[..n], ds)[Offset(dims, d) + f] == BlankCell(dims[d], dims[d].facets[f], ds)
    decreases n
  {
    hide BlankCell;
    assert dims[..n][..n - 1] == dims[..n - 1] && dims[..n][n - 1] == dims[n - 1];
    BlankLength(dims, ds, n);
    BlankLength(dims, ds, n - 1);
    if d < n - 1 { BlankAt(dims, ds, n - 1, d, f); }
  }

  lemma {:induction false} BlankLength(dims: seq<Dimension>, ds: seq<Description>, n: nat)
    requires n <= |dims|
    ensures |Blank(dims[..n], ds)| == Offset(dims, n)
    decreases n
  {
    hide BlankCell;
    if n > 0 {
      assert dims[..n][..n - 1] == dims[..n - 1] && dims[..n][n - 1] == dims[n - 1];
      BlankLength(dims, ds, n - 1);
    }
  }

  /** The cell of facet `f` of dimension `d` stands in matrix order, with the labels and the description of both. */
  lemma MatrixCell(dims: seq<Dimension>, ds: seq<Description>, theses: seq<Thesis>, d: nat, f: nat)
    requires d < |dims| && f < |dims[d].facets|
    ensures var (cells, i) := (Catalogue(dims, ds, theses), Offset(dims, d) + f);
            && i < Offset(dims, |dims|) <= |cells|
            && cells[i].dimensionId == dims[d].id && cells[i].facetId == dims[d].facets[f].id
            && cells[i].dimensionLabel == dims[d].title && cells[i].facetLabel == dims[d].facets[f].title
            && IsDescription(ds, dims[d].id, dims[d].facets[f].id, cells[i].description)
            && cells[i].curation == Flat && cells[i].tensions == []
  {
    hide Home, IdsAt, SortIds, Blank, Describe, IsDescription, AllTheses;
    assert dims[..|dims|] == dims;
    BlankAt(dims, ds, |dims|, d, f);
    DescribeFinds(ds, dims[d].id, dims[d].facets[f].id);
  }

  /** `angle` names a facet of a dimension of the matrix. */
  ghost predicate InMatrix(dims: seq<Dimension>, angle: string) {
    exists d, f :: 0 <= d < |dims| && 0 <= f < |dims[d].facets| && Names(dims[d], dims[d].facets[f], angle)
  }

  predicate Names(d: Dimension, f: Facet, angle: string) {
    angle == d.id + ":" + f.id
  }

  lemma {:induction false} BlankIsOfMatrix(dims: seq<Dimension>, ds: seq<Description>, i: nat)
    requires i < |Blank(dims, ds)|
    ensures InMatrix(dims, Key(Blank(dims, ds)[i]))
    decreases |dims|
  {
    hide Describe;
    var n := |dims| - 1;
    var init, last := Blank(dims[..n], ds), dims[n];
    if i < |init| {
      BlankIsOfMatrix(dims[..n], ds, i);
      var d, f :| 0 <= d < n && 0 <= f < |dims[..n][d].facets| && Names(dims[d], dims[d].facets[f], Key(init[i]));
      assert Names(dims[d], dims[d].facets[f], Key(Blank(dims, ds)[i]));
    } else {
      assert Names(last, last.facets[i - |init|], Key(Blank(dims, ds)[i]));
    }
  }

  lemma HomeIffInMatrix(dims: seq<Dimension>, ds: seq<Description>, angle: string)
    ensures Home(Blank(dims, ds), angle) < |Blank(dims, ds)| <==> InMatrix(dims, angle)
  {
    hide Home, Blank, InMatrix, Describe;
    var blank := Blank(dims, ds);
    var home := Home(blank, angle);
    if home < |blank| { BlankIsOfMatrix(dims, ds, home); }
    if InMatrix(dims, angle) {
      var d, f := NamedCell(dims, angle);
      assert dims[..|dims|] == dims;
      BlankAt(dims, ds, |dims|, d, f);
      assert Key(blank[Offset(dims, d) + f]) == angle;
    }
  }

  lemma NamedCell(dims: seq<Dimension>, angle: string) returns (d: nat, f: nat)
    requires InMatrix(dims, angle)
    ensures d < |dims| && f < |dims[d].facets| && Names(dims[d], dims[d].facets[f], angle)
  {
    d, f :| 0 <= d < |dims| && 0 <= f < |dims[d].facets| && Names(dims[d], dims[d].facets[f], angle);
  }

  /** A cell behind those of the matrix is there exactly if some thesis has an angle that names no facet. */
  lemma OutsideCell(dims: seq<Dimension>, ds: seq<Description>, theses: seq<Thesis>)
    ensures var (cells, n) := (Catalogue(dims, ds, theses), Offset(dims, |dims|));
            if forall t :: 0 <= t < |theses| ==> InMatrix(dims, theses[t].angle) then |cells| == n
            else |cells| == n + 1
                 && cells[n].dimensionId == "outside-matrix" && cells[n].facetId == "unmatched"
                 && cells[n].dimensionLabel == "Outside the matrix" && cells[n].facetLabel == "Unmatched angle"
                 && cells[n].description == "" && cells[n].curation == Flat && cells[n].tensions == []
  {
    hide Home, IdsAt, SortIds, Blank, InMatrix, AllTheses;
    var blank := Blank(dims, ds);
    assert dims[..|dims|] == dims;
    BlankLength(dims, ds, |dims|);
    forall t | 0 <= t < |theses|
      ensures Home(blank, theses[t].angle) == |blank| <==> !InMatrix(dims, theses[t].angle)
    {
      HomeIffInMatrix(dims, ds, theses[t].angle);
    }
    var outside := IdsAt(blank, theses, |blank|);
    if outside != [] {
      IdsAtMembers(blank, theses, |blank|, outside[0]);
    }
    if t :| 0 <= t < |theses| && !InMatrix(dims, theses[t].angle) {
      IdsAtMembers(blank, theses, |blank|, theses[t].id);
    }
  }

  /** A cell without theses has no group; any other has one, which lists them by id and marks no duplicate. */
  lemma GroupsOfCell(dims: seq<Dimension>, ds: seq<Description>, theses: seq<Thesis>, i: nat)
    requires i < |Catalogue(dims, ds, theses)|
    ensures var (gs, blank) := (Catalogue(dims, ds, theses)[i].groups, Blank(dims, ds));
            if forall t :: 0 <= t < |theses| ==> Home(blank, theses[t].angle) != i then gs == []
            else |gs| == 1 && gs[0].title == "All theses" && gs[0].summary == "" && gs[0].representative == None
                 && InOrder(MemberIds(gs[0].members), Less) && forall m :: m in gs[0].members ==> m.duplicateOf == None
  {
    hide Home, IdsAt, SortIds, Blank, Catalogue;
    var ids := IdsAt(Blank(dims, ds), theses, i);
    CellContent(dims, ds, theses, i);
    SortIdsSorts(ids);
    assert MemberIds(AllTheses(SortIds(ids)).members) == SortIds(ids);
    if ids != [] { IdsAtMembers(Blank(dims, ds), theses, i, ids[0]); }
    if t :| 0 <= t < |theses| && Home(Blank(dims, ds), theses[t].angle) == i {
      IdsAtMembers(Blank(dims, ds), theses, i, theses[t].id);
    }
  }

  /** The members of a catalogue are those of its cells in turn, and those of a cell are those of its groups in turn. */
  lemma MembersInTurn(cells: seq<CellEntry>, c: CellEntry, gs: seq<Group>, g: Group)
    ensures Members([]) == [] && GroupMembers([]) == []
    ensures Members(cells + [c]) == Members(cells) + GroupMembers(c.groups)
    ensures GroupMembers(gs + [g]) == GroupMembers(gs) + g.members
  {
    assert (cells + [c])[..|cells|] == cells && (gs + [g])[..|gs|] == gs;
  }

  // ----- Validation

  ghost predicate NoRepeats(s: seq<string>) {
    forall i, j :: 0 <= i < j < |s| ==> s[i] != s[j]
  }

  lemma {:induction false} CountsAreOnes(s: seq<string>)
    ensures NoRepeats(s) <==> forall x :: multiset(s)[x] <= 1
    decreases |s|
  {
    if s != [] {
      var init, last := s[..|s| - 1], s[|s| - 1];
      assert s == init + [last];
      CountsAreOnes(init);
      assert last in init <==> last in multiset(init);
      if NoRepeats(init) && last !in init {
        assert NoRepeats(s);
      }
      if last in init {
        var i :| 0 <= i < |init| && init[i] == last;
        assert s[i] == s[|s| - 1];
        assert multiset(s)[last] > 1;
      }
      if !NoRepeats(init) {
        var x :| multiset(init)[x] > 1;
        assert multiset(s)[x] > 1;
      }
    }
  }

  /** The members are duplicate-free and their ids are those of the theses. */
  ghost predicate OnceEach(ms: seq<string>, ids: seq<string>) {
    NoRepeats(ms) && forall x :: x in ms <==> x in ids
  }

  ghost predicate OnceUpTo(ms: seq<string>, ids: seq<string>, n: nat)
    requires n <= |ids|
  {
    forall i :: 0 <= i < n ==> multiset(ms)[ids[i]] == 1
  }

  /** The error names the first offender: theses in their order, and only then foreign members. */
  ghost predicate FirstOffence(e: CatalogError, ms: seq<string>, ids: seq<string>) {
    match e
    case Missing(id) => exists t | 0 <= t < |ids| :: OnceUpTo(ms, ids, t) && ids[t] == id && multiset(ms)[id] == 0
    case Repeated(id, n) =>
      exists t | 0 <= t < |ids| :: OnceUpTo(ms, ids, t) && ids[t] == id && multiset(ms)[id] == n > 1
    case Unknown(id) => OnceUpTo(ms, ids, |ids|) && exists m | 0 <= m < |ms| :: FirstForeign(ms, ids, m) && ms[m] == id
  }

  ghost predicate FirstForeign(ms: seq<string>, ids: seq<string>, m: nat)
    requires m < |ms|
  {
    ms[m] !in ids && forall i :: 0 <= i < m ==> ms[i] in ids
  }

  lemma AcceptedIsOnceEach(ms: seq<string>, ids: seq<string>)
    ensures OnceEach(ms, ids) <==> OnceUpTo(ms, ids, |ids|) && forall m :: 0 <= m < |ms| ==> ms[m] in ids
  {
    CountsAreOnes(ms);
    if OnceEach(ms, ids) {
      forall i | 0 <= i < |ids|
        ensures multiset(ms)[ids[i]] == 1
      {
        assert ids[i] in ms && ids[i] in multiset(ms);
      }
    }
    if OnceUpTo(ms, ids, |ids|) && forall m :: 0 <= m < |ms| ==> ms[m] in ids {
      forall x
        ensures multiset(ms)[x] <= 1 && (x in ms <==> x in ids)
      {
        assert x in ms <==> x in multiset(ms);
        if x in ids {
          var i :| 0 <= i < |ids| && ids[i] == x;
        }
      }
    }
  }

  /** There is at most one first offence, so the outcome is determined. */
  lemma FirstOffenceIsUnique(e: CatalogError, f: CatalogError, ms: seq<string>, ids: seq<string>)
    requires FirstOffence(e, ms, ids) && FirstOffence(f, ms, ids)
    ensures e == f
  {
    if !e.Unknown? && !f.Unknown? {
      var t :| 0 <= t < |ids| && OnceUpTo(ms, ids, t) && ids[t] == e.id && multiset(ms)[e.id] != 1;
      var u :| 0 <= u < |ids| && OnceUpTo(ms, ids, u) && ids[u] == f.id && multiset(ms)[f.id] != 1;
      assert t == u;
    }
  }

  ghost predicate Counts(counts: map<string, nat>, s: seq<string>) {
    forall x :: Lookup(counts, x) == multiset(s)[x]
  }

  function Lookup(counts: map<string, nat>, x: string): nat {
    if x in counts then counts[x] else 0
  }

  method CountMembers(members: seq<Member>) returns (counts: map<string, nat>)
    ensures Counts(counts, MemberIds(members))
  {
    ghost var ms := MemberIds(members);
    counts := map[];
    for k := 0 to |members|
      invariant Counts(counts, ms[..k])
    {
      var id := members[k].thesisId;
      assert ms[..k + 1] == ms[..k] + [id];
      counts := counts[id := Lookup(counts, id) + 1];
    }
    assert ms[..|members|] == ms;
  }

  method Validate(cells: seq<CellEntry>, theses: seq<Thesis>) returns (r: Result<(), CatalogError>)
    ensures r.Ok? <==> OnceEach(MemberIds(Members(cells)), Ids(theses))
    ensures r.Err? ==> FirstOffence(r.error, MemberIds(Members(cells)), Ids(theses))
  {
    hide Members, OnceEach, FirstOffence, FirstForeign, Lookup, Counts;
    var members := Members(cells);
    ghost var ms, ids := MemberIds(members), Ids(theses);
    var counts := CountMembers(members);
    for t := 0 to |theses|
      invariant OnceUpTo(ms, ids, t)
    {
      var n := Lookup(counts, theses[t].id);
      CountIs(counts, ms, ids[t]);
      if n == 0 {
        ThesisOffends(Missing(theses[t].id), ms, ids, t);
        return Err(Missing(theses[t].id));
      }
      if n != 1 {
        ThesisOffends(Repeated(theses[t].id, n), ms, ids, t);
        return Err(Repeated(theses[t].id, n));
      }
    }
    var known := set t | 0 <= t < |theses| :: theses[t].id;
    KnownIds(theses);
    for k := 0 to |members|
      invariant forall m :: 0 <= m < k ==> ms[m] in ids
    {
      if members[k].thesisId !in known {
        MemberOffends(ms, ids, k);
        return Err(Unknown(members[k].thesisId));
      }
    }
    AcceptedIsOnceEach(ms, ids);
    return Ok(());
  }

  lemma CountIs(counts: map<string, nat>, ms: seq<string>, x: string)
    requires Counts(counts, ms)
    ensures Lookup(counts, x) == multiset(ms)[x]
  {
  }

  lemma ThesisOffends(e: CatalogError, ms: seq<string>, ids: seq<string>, t: nat)
    requires t < |ids| && OnceUpTo(ms, ids, t)
    requires var n := multiset(ms)[ids[t]]; n != 1 && e == if n == 0 then Missing(ids[t]) else Repeated(ids[t], n)
    ensures FirstOffence(e, ms, ids) && !OnceEach(ms, ids)
  {
    AcceptedIsOnceEach(ms, ids);
  }

  lemma MemberOffends(ms: seq<string>, ids: seq<string>, m: nat)
    requires m < |ms| && OnceUpTo(ms, ids, |ids|) && FirstForeign(ms, ids, m)
    ensures FirstOffence(Unknown(ms[m]), ms, ids) && !OnceEach(ms, ids)
  {
    AcceptedIsOnceEach(ms, ids);
  }

  lemma KnownIds(theses: seq<Thesis>)
    ensures forall x :: x in (set t | 0 <= t < |theses| :: theses[t].id) <==> x in Ids(theses)
  {
    forall x | x in (set t | 0 <= t < |theses| :: theses[t].id)
      ensures x in Ids(theses)
    {
      var t :| 0 <= t < |theses| && theses[t].id == x;
      assert Ids(theses)[t] == x;
    }
  }

  /** The catalogue that was built validates exactly when the thesis ids are distinct. */
  lemma CatalogueValidates(dims: seq<Dimension>, ds: seq<Description>, theses: seq<Thesis>)
    ensures OnceEach(MemberIds(Members(Catalogue(dims, ds, theses))), Ids(theses)) <==> NoRepeats(Ids(theses))
  {
    hide Catalogue, Members, NoRepeats, Ids, MemberIds;
    var ms, ids := MemberIds(Members(Catalogue(dims, ds, theses))), Ids(theses);
    CatalogueListsTheses(dims, ds, theses);
    CountsAreOnes(ms);
    CountsAreOnes(ids);
    assert forall x :: (x in ms <==> x in multiset(ms)) && (x in ids <==> x in multiset(ids));
  }
}
