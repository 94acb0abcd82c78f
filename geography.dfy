/** The cascading area filters: choosing a state lists its LGAs, choosing an LGA
    its wards, choosing a ward its facilities.  Each step looks the chosen name
    up in the parent table, takes the id of the first row carrying it, and lists
    the distinct names of the child rows whose parent id is that id. */
module Geography {
  import opened Tables
  import opened Entities

  /** The outcome of one lookup: the option names, or the `IndexError` raised by
      `.values[0]` when no parent row has the chosen name. */
  datatype Lookup = Options(names: seq<string>) | NoSuchArea

  /** `if selected:`: a dropdown value counts only when it is a non-empty name. */
  predicate Chosen(selected: Option<string>)
  {
    selected.Some? && selected.value != ""
  }

  /** Whether some row of `areas` carries `name`. */
  predicate Named(areas: seq<Area>, name: string)
  {
    exists i :: 0 <= i < |areas| && areas[i].name == name
  }

  /** The position of the first row carrying `name`. */
  function FirstNamed(areas: seq<Area>, name: string): (i: nat)
    requires Named(areas, name)
    ensures i < |areas| && areas[i].name == name
    ensures forall j :: 0 <= j < i ==> areas[j].name != name
  {
    if areas[0].name == name then 0
    else
      assert Named(areas[1..], name) by {
        var k :| 0 <= k < |areas| && areas[k].name == name;
        assert areas[1..][k - 1] == areas[k];
      }
      1 + FirstNamed(areas[1..], name)
  }

  /** The names of `areas`, row by row. */
  function Names(areas: seq<Area>): (r: seq<string>)
    ensures |r| == |areas|
    ensures forall i :: 0 <= i < |areas| ==> r[i] == areas[i].name
  {
    if |areas| == 0 then [] else [areas[0].name] + Names(areas[1..])
  }

  /** The rows of `children` that lie in the area with id `parent`. */
  function ChildrenOf(children: seq<Area>, parent: int): (r: seq<Area>)
    ensures forall c :: c in r <==> c in children && c.parentId == parent
  {
    Filter(children, (c: Area) => c.parentId == parent)
  }

  /** `update_lga_options`, `update_ward_options` and `update_facility_options`: no
      options when nothing is chosen; an error when the chosen name is in no parent
      row; otherwise each name of a child of the first parent row carrying the chosen
      name, once, in order of first appearance. */
  function ChildOptions(parents: seq<Area>, children: seq<Area>, selected: Option<string>): (r: Lookup)
    ensures !Chosen(selected) ==> r == Options([])
    ensures r.NoSuchArea? <==> Chosen(selected) && !Named(parents, selected.value)
    ensures r.Options? && Chosen(selected) ==>
      var parent := parents[FirstNamed(parents, selected.value)].id;
      var listed := Names(ChildrenOf(children, parent));
      (forall n :: n in r.names <==> exists c :: c in children && c.parentId == parent && c.name == n)
      && (forall i, j :: 0 <= i < j < |r.names| ==> r.names[i] != r.names[j])
      && (forall n :: n in r.names ==> n in listed)
      && (forall i, j :: 0 <= i < j < |r.names| ==> FirstIndex(listed, r.names[i]) < FirstIndex(listed, r.names[j]))
  {
    if !Chosen(selected) then Options([])
    else if !Named(parents, selected.value) then NoSuchArea
    else
      var parent := parents[FirstNamed(parents, selected.value)].id;
      ChildNames(children, parent);
      Options(Unique(Names(ChildrenOf(children, parent))))
  }

  /** The distinct names of the children of `parent` are the names some child carries. */
  lemma ChildNames(children: seq<Area>, parent: int)
    ensures forall n :: n in Unique(Names(ChildrenOf(children, parent))) <==>
      exists c :: c in children && c.parentId == parent && c.name == n
  {
    var names := Unique(Names(ChildrenOf(children, parent)));
    forall n | n in names ensures exists c :: c in children && c.parentId == parent && c.name == n {
      NameHasChild(children, parent, n);
    }
    forall n | exists c :: c in children && c.parentId == parent && c.name == n ensures n in names {
      var c :| c in children && c.parentId == parent && c.name == n;
      ChildHasName(children, parent, c);
    }
  }

  lemma NameHasChild(children: seq<Area>, parent: int, n: string)
    requires n in Unique(Names(ChildrenOf(children, parent)))
    ensures exists c :: c in children && c.parentId == parent && c.name == n
  {
    var kids := ChildrenOf(children, parent);
    var i :| 0 <= i < |kids| && Names(kids)[i] == n;
    assert kids[i] in kids;
  }

  lemma ChildHasName(children: seq<Area>, parent: int, c: Area)
    requires c in children && c.parentId == parent
    ensures c.name in Unique(Names(ChildrenOf(children, parent)))
  {
    var kids := ChildrenOf(children, parent);
    var i :| 0 <= i < |kids| && kids[i] == c;
    assert Names(kids)[i] == c.name;
  }

  /** Only the first parent row carrying the chosen name matters: rows appended after
      it do not change the options. */
  lemma FirstMatchDecides(parents: seq<Area>, more: seq<Area>, children: seq<Area>, name: string)
    requires Named(parents, name)
    ensures ChildOptions(parents + more, children, Some(name)) == ChildOptions(parents, children, Some(name))
  {
    FirstNamedAppend(parents, more, name);
  }

  /** The first row carrying a name stays the first when rows are appended. */
  lemma FirstNamedAppend(parents: seq<Area>, more: seq<Area>, name: string)
    requires Named(parents, name)
    ensures Named(parents + more, name)
    ensures FirstNamed(parents + more, name) == FirstNamed(parents, name)
    ensures (parents + more)[FirstNamed(parents, name)] == parents[FirstNamed(parents, name)]
  {
    var all := parents + more;
    var i := FirstNamed(parents, name);
    assert all[i] == parents[i];
    assert Named(all, name);
    assert forall j :: 0 <= j < i ==> all[j] == parents[j];
  }

  /** A child whose parent is the chosen area shows up among the options. */
  lemma ChildListed(parents: seq<Area>, children: seq<Area>, name: string, c: Area)
    requires name != "" && Named(parents, name)
    requires c in children && c.parentId == parents[FirstNamed(parents, name)].id
    ensures ChildOptions(parents, children, Some(name)).Options?
    ensures c.name in ChildOptions(parents, children, Some(name)).names
  {
  }
}
