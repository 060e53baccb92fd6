// Time-zone name aliases: the linked list of tzmapping.c, which grows while it is walked.
module Aliases {
  import opened DtTypes
  import opened Sequences

  datatype Kind = Abbreviation | WinStandardTime | OlsonName

  datatype Alias = Alias(kind: Kind, name: string)

  /** struct tz_unicode_mapping: a Windows zone, a territory and an Olson name. */
  datatype Row = Row(other: string, territory: string, type_: string)

  // ---- what the list should hold

  predicate Names(r: Row, name: string) { r.type_ == name || r.other == name }

  function AliasesOf(r: Row): set<Alias>
  {
    {Alias(WinStandardTime, r.other), Alias(OlsonName, r.type_), Alias(Abbreviation, r.territory)}
  }

  /** Each Olson name belongs to one Windows zone, and no string is both kinds of name. */
  predicate ValidTable(t: seq<Row>)
  {
    && (forall i, j :: 0 <= i < |t| && 0 <= j < |t| && t[i].type_ == t[j].type_ ==> t[i].other == t[j].other)
    && (forall i, j :: 0 <= i < |t| && 0 <= j < |t| ==> t[i].type_ != t[j].other)
  }

  /** The aliases of all rows of one Windows zone. */
  function ZoneAliases(t: seq<Row>, zone: string): set<Alias>
  {
    set i, a | 0 <= i < |t| && t[i].other == zone && a in AliasesOf(t[i]) :: a
  }

  function AllAliases(t: seq<Row>): set<Alias>
  {
    set i, a | 0 <= i < |t| && a in AliasesOf(t[i]) :: a
  }

  predicate Known(t: seq<Row>, name: string)
  {
    exists i :: 0 <= i < |t| && Names(t[i], name)
  }

  /** The Windows zone that a name belongs to: that of the first row it names. */
  function ZoneOf(t: seq<Row>, name: string): (z: string)
    requires Known(t, name)
    ensures exists i :: 0 <= i < |t| && Names(t[i], name) && z == t[i].other
  {
    if Names(t[0], name) then t[0].other else ZoneOf(t[1..], name)
  }

  /** The Windows name and each of its Olson names have the same zone, hence the same aliases. */
  lemma SameZone(t: seq<Row>, i: nat)
    requires ValidTable(t) && i < |t|
    ensures Known(t, t[i].other) && Known(t, t[i].type_)
    ensures ZoneOf(t, t[i].other) == t[i].other == ZoneOf(t, t[i].type_)
  {
    assert Names(t[i], t[i].other) && Names(t[i], t[i].type_);
    var j :| 0 <= j < |t| && Names(t[j], t[i].other) && ZoneOf(t, t[i].other) == t[j].other;
    var k :| 0 <= k < |t| && Names(t[k], t[i].type_) && ZoneOf(t, t[i].type_) == t[k].other;
  }

  /** Every row that a name of the zone names belongs to the zone. */
  lemma RowsStayInZone(t: seq<Row>, zone: string, name: string, i: nat)
    requires ValidTable(t) && i < |t| && Names(t[i], name)
    requires Alias(WinStandardTime, name) in ZoneAliases(t, zone) || Alias(OlsonName, name) in ZoneAliases(t, zone)
    ensures t[i].other == zone
  {
  }

  // ---- the list's contents as a sequence

  function Inserted(s: seq<Alias>, a: Alias): seq<Alias> { if a in s then s else s + [a] }

  function InsertedRow(s: seq<Alias>, r: Row): seq<Alias>
  {
    Inserted(Inserted(Inserted(s, Alias(WinStandardTime, r.other)), Alias(OlsonName, r.type_)),
             Alias(Abbreviation, r.territory))
  }

  /** All of the first n rows that name names, inserted. */
  function Added(s: seq<Alias>, t: seq<Row>, n: nat, name: string): seq<Alias>
    requires n <= |t|
  {
    if n == 0 then s
    else
      var before := Added(s, t, n - 1, name);
      if Names(t[n - 1], name) then InsertedRow(before, t[n - 1]) else before
  }

  /** Adding keeps the list free of duplicates, only appends, and appends the aliases of the named rows. */
  lemma {:induction false} AddedHolds(s: seq<Alias>, t: seq<Row>, n: nat, name: string)
    requires n <= |t| && Distinct(s)
    ensures var r := Added(s, t, n, name);
            && Distinct(r) && s <= r
            && (forall a :: a in r <==> a in s || exists i :: 0 <= i < n && Names(t[i], name) && a in AliasesOf(t[i]))
  {
    if n > 0 { AddedHolds(s, t, n - 1, name); }
  }

  // ---- the linked list

  class Node {
    const alias: Alias
    var next: Node?

    constructor (alias: Alias)
      ensures this.alias == alias && next == null
    {
      this.alias, next := alias, null;
    }
  }

  /** Where the next node goes: not chosen yet, the head of the list, or a node's next field. */
  datatype Position = Unset | Head | After(node: Node)

  /** TZMAP_BEGIN, or the node that comes next (null at the end). */
  datatype Iterator = Begin | At(node: Node?)

  class AliasList {
    var begin: Node?
    ghost var nodes: seq<Node>
    ghost var cells: set<Node>

    constructor ()
      ensures Valid() && nodes == [] && cells == {}
    {
      begin, nodes, cells := null, [], {};
    }

    ghost function NodeAt(i: nat): Node?
      reads this
    {
      if i < |nodes| then nodes[i] else null
    }

    ghost predicate Valid()
      reads this, cells
    {
      && (forall i :: 0 <= i < |nodes| ==> nodes[i] in cells)
      && begin == NodeAt(0)
      && (forall i {:trigger nodes[i].next} :: 0 <= i < |nodes| ==> nodes[i].next == NodeAt(i + 1))
      && (forall i, j :: 0 <= i < j < |nodes| ==> nodes[i] != nodes[j])
    }

    ghost function Contents(): (s: seq<Alias>)
      reads this
      ensures |s| == |nodes| && forall i :: 0 <= i < |s| ==> s[i] == nodes[i].alias
    {
      seq(|nodes|, i requires 0 <= i < |nodes| reads this => nodes[i].alias)
    }

    /** The position behind the last node. */
    ghost predicate AtEnd(p: Position)
      reads this
    {
      p == if nodes == [] then Head else After(nodes[|nodes| - 1])
    }

    /** Where an iterator stands in the list as it is now. */
    ghost predicate StandsAt(it: Iterator, i: nat)
      reads this
    {
      i <= |nodes| && (it == At(NodeAt(i)) || (it.Begin? && i == 0))
    }

    /** tzmap_iterate: it yields the node at which the iterator stands, and the iterator moves on to
        what is the next place at this moment, the end included. */
    method Iterate(it: Iterator, ghost i: nat) returns (status: Status, it': Iterator, node: Node?)
      requires Valid() && StandsAt(it, i)
      ensures status == if i < |nodes| then DtOk else DtNoMoreItems
      ensures node == NodeAt(i) && it' == At(NodeAt(i + 1))
    {
      var cur := if it.Begin? then begin else it.node;
      if cur == null {
        return DtNoMoreItems, At(null), null;
      }
      return DtOk, At(cur.next), cur;
    }

    /** The search of insert_alias. */
    method Holds(alias: Alias) returns (found: bool)
      requires Valid()
      ensures found <==> alias in Contents()
    {
      var status, it, node := Iterate(Begin, 0);
      ghost var i := 0;
      while status == DtOk
        invariant Valid() && 0 <= i <= |nodes| && (status == DtOk <==> i < |nodes|)
        invariant node == NodeAt(i) && it == At(NodeAt(i + 1))
        invariant alias !in Contents()[..i]
        decreases |nodes| - i
      {
        if node.alias == alias {
          assert Contents()[i] == alias;
          return true;
        }
        i := i + 1;
        status, it, node := Iterate(it, i);
      }
      assert Contents()[..|nodes|] == Contents();
      return false;
    }

    /** insert_alias */
    method InsertAlias(alias: Alias, pos: Position) returns (pos': Position)
      requires Valid() && AtEnd(pos)
      modifies this, cells
      ensures Valid() && AtEnd(pos') && Contents() == Inserted(old(Contents()), alias)
      ensures old(nodes) <= nodes && fresh(cells - old(cells))
    {
      var found := Holds(alias);
      if found {
        return pos;
      }
      var inserted := new Node(alias);
      match pos {
        case Head => begin := inserted;
        case After(node) => node.next := inserted;
      }
      nodes, cells := nodes + [inserted], cells + {inserted};
      return After(inserted);
    }

    /** insert_mapping */
    method InsertMapping(r: Row, pos: Position) returns (pos': Position)
      requires Valid() && AtEnd(pos)
      modifies this, cells
      ensures Valid() && AtEnd(pos') && Contents() == InsertedRow(old(Contents()), r)
      ensures old(nodes) <= nodes && fresh(cells - old(cells))
    {
      pos' := InsertAlias(Alias(WinStandardTime, r.other), pos);
      pos' := InsertAlias(Alias(OlsonName, r.type_), pos');
      pos' := InsertAlias(Alias(Abbreviation, r.territory), pos');
    }

    /** add_mapping_to_aliases */
    method AddMapping(t: seq<Row>, name: string, pos: Position) returns (pos': Position)
      requires Valid() && (if pos.Unset? then nodes == [] else AtEnd(pos))
      modifies this, cells
      ensures Valid() && AtEnd(pos') && Contents() == Added(old(Contents()), t, |t|, name)
      ensures old(nodes) <= nodes && fresh(cells - old(cells))
    {
      pos' := pos;
      if pos.Unset? {
        pos' := Head;
        begin := null;
      }
      for i := 0 to |t|
        invariant Valid() && AtEnd(pos') && Contents() == Added(old(Contents()), t, i, name)
        invariant old(nodes) <= nodes && fresh(cells - old(cells))
      {
        if t[i].type_ == name || t[i].other == name {
          pos' := InsertMapping(t[i], pos');
        }
      }
    }

    /** mapping_size */
    method MappingSize() returns (size: nat)
      requires Valid()
      ensures size == |nodes|
    {
      size := 0;
      var status, it, node := Iterate(Begin, 0);
      while status == DtOk
        invariant Valid() && size <= |nodes| && (status == DtOk <==> size < |nodes|)
        invariant node == NodeAt(size) && it == At(NodeAt(size + 1))
        decreases |nodes| - size
      {
        size := size + 1;
        status, it, node := Iterate(it, size);
      }
    }
  }

  // ---- the closure

  /** What tzmap_map builds: no duplicates, and exactly the aliases of the zone's rows. */
  ghost predicate IsClosure(s: seq<Alias>, t: seq<Row>, name: string)
    requires Known(t, name)
  {
    Distinct(s) && forall a :: a in s <==> a in ZoneAliases(t, ZoneOf(t, name))
  }

  /** While the list is being completed: only aliases of the zone, the Windows name first, and all of
      them once that name has been followed. */
  ghost predicate Growing(s: seq<Alias>, t: seq<Row>, zone: string, complete: bool)
  {
    && Distinct(s) && s != [] && s[0] == Alias(WinStandardTime, zone)
    && (forall a :: a in s ==> a in ZoneAliases(t, zone))
    && (complete ==> forall a :: a in ZoneAliases(t, zone) ==> a in s)
  }

  lemma InsertedRowFirst(s: seq<Alias>, r: Row)
    ensures s <= InsertedRow(s, r) && (s == [] ==> InsertedRow(s, r)[0] == Alias(WinStandardTime, r.other))
    ensures InsertedRow(s, r) != []
  {
  }

  /** The first alias ever added is the Windows name of the first row named. */
  lemma {:induction false} FirstAdded(t: seq<Row>, n: nat, name: string)
    requires n <= |t|
    ensures var r := Added([], t, n, name);
            if r == [] then forall i :: 0 <= i < n ==> !Names(t[i], name)
            else exists i :: 0 <= i < n && Names(t[i], name) && r[0] == Alias(WinStandardTime, t[i].other)
  {
    if n > 0 {
      FirstAdded(t, n - 1, name);
      InsertedRowFirst(Added([], t, n - 1, name), t[n - 1]);
    }
  }

  /** The aliases of a row in the order in which they are inserted. */
  function RowAliases(r: Row): seq<Alias>
  {
    [Alias(WinStandardTime, r.other), Alias(OlsonName, r.type_), Alias(Abbreviation, r.territory)]
  }

  /** The first row that a name names. */
  function FirstNamed(t: seq<Row>, name: string): (i: nat)
    requires Known(t, name)
    ensures i < |t| && Names(t[i], name) && forall j :: 0 <= j < i ==> !Names(t[j], name)
  {
    if Names(t[0], name) then 0 else 1 + FirstNamed(t[1..], name)
  }

  lemma {:induction false} NoneAdded(t: seq<Row>, n: nat, name: string)
    requires n <= |t| && forall j :: 0 <= j < n ==> !Names(t[j], name)
    ensures Added([], t, n, name) == []
  {
    if n > 0 { NoneAdded(t, n - 1, name); }
  }

  /** The list starts with the aliases of the first named row, its Olson name being the first of all. */
  lemma {:induction false} FirstRowFirst(t: seq<Row>, n: nat, name: string)
    requires Known(t, name) && FirstNamed(t, name) < n <= |t|
    ensures RowAliases(t[FirstNamed(t, name)]) <= Added([], t, n, name)
  {
    hide FirstNamed, Known;
    var i := FirstNamed(t, name);
    if n == i + 1 {
      NoneAdded(t, i, name);
    } else {
      FirstRowFirst(t, n - 1, name);
      InsertedRowFirst(Added([], t, n - 1, name), t[n - 1]);
    }
  }

  lemma StartsGrowing(t: seq<Row>, name: string)
    requires ValidTable(t) && Known(t, name)
    ensures var zone := ZoneOf(t, name); Growing(Added([], t, |t|, name), t, zone, name == zone)
  {
    var zone, s := ZoneOf(t, name), Added([], t, |t|, name);
    AddedHolds([], t, |t|, name);
    FirstAdded(t, |t|, name);
    assert forall i :: 0 <= i < |t| && Names(t[i], name) ==> t[i].other == zone;
  }

  /** Following an alias of the zone adds only aliases of the zone; following the Windows name adds all. */
  lemma KeepsGrowing(s: seq<Alias>, t: seq<Row>, zone: string, complete: bool, a: Alias)
    requires ValidTable(t) && Growing(s, t, zone, complete) && a in s && !a.kind.Abbreviation?
    ensures var s' := Added(s, t, |t|, a.name);
            s <= s' && Growing(s', t, zone, complete || a == Alias(WinStandardTime, zone))
  {
    AddedHolds(s, t, |t|, a.name);
    var s' := Added(s, t, |t|, a.name);
    forall i | 0 <= i < |t| && Names(t[i], a.name) ensures t[i].other == zone {
      RowsStayInZone(t, zone, a.name, i);
    }
  }

  /** True of the list for every table: no duplicates, nothing from outside the table. */
  ghost predicate FromTable(s: seq<Alias>, t: seq<Row>)
  {
    Distinct(s) && forall a :: a in s ==> a in AllAliases(t)
  }

  lemma StaysFromTable(s: seq<Alias>, t: seq<Row>, name: string)
    requires FromTable(s, t)
    ensures var s' := Added(s, t, |t|, name); FromTable(s', t) && s <= s'
  {
    AddedHolds(s, t, |t|, name);
  }

  lemma ListIsBounded(s: seq<Alias>, t: seq<Row>)
    requires FromTable(s, t)
    ensures |s| <= |AllAliases(t)|
  {
    DistinctFits(s, AllAliases(t));
  }

  lemma StartsFromTable(t: seq<Row>, name: string)
    ensures var s := Added([], t, |t|, name); FromTable(s, t) && (s != [] <==> Known(t, name))
  {
    StaysFromTable([], t, name);
    FirstAdded(t, |t|, name);
  }

  /** The first aliases: those of the rows that the name itself names. */
  method Start(t: seq<Row>, name: string) returns (list: AliasList, pos: Position)
    ensures fresh(list) && fresh(list.cells) && list.Valid() && list.AtEnd(pos)
    ensures FromTable(list.Contents(), t) && (list.nodes != [] <==> Known(t, name))
    ensures Known(t, name) ==> RowAliases(t[FirstNamed(t, name)]) <= list.Contents()
    ensures Known(t, name) && ValidTable(t) ==>
      var zone := ZoneOf(t, name); Growing(list.Contents(), t, zone, name == zone)
  {
    hide Known, ValidTable, ZoneAliases, AllAliases, Added, Distinct, FromTable, Growing;
    list := new AliasList();
    pos := list.AddMapping(t, name, Unset);
    StartsFromTable(t, name);
    if Known(t, name) { FirstRowFirst(t, |t|, name); }
    if Known(t, name) && ValidTable(t) { StartsGrowing(t, name); }
  }

  /** tzmap_map. For every table it ends, without duplicates, and fails exactly on unknown names. */
  method TzmapMap(t: seq<Row>, name: string) returns (status: Status, list: AliasList?)
    ensures status == DtOk <==> Known(t, name)
    ensures if Known(t, name) then list != null && list.Valid() && FromTable(list.Contents(), t)
            else status == DtTimezoneNotFound && list == null
    ensures Known(t, name) ==> RowAliases(t[FirstNamed(t, name)]) <= list.Contents()
    ensures Known(t, name) && ValidTable(t) ==> IsClosure(list.Contents(), t, name)
  {
    hide Known, ValidTable, ZoneAliases, AllAliases, Added, Distinct, FromTable, Growing, FirstNamed, RowAliases;
    var pos;
    list, pos := Start(t, name);
    var it := Begin;
    var size := 0;
    ghost var zone := if Known(t, name) then ZoneOf(t, name) else "";
    ghost var closing := Known(t, name) && ValidTable(t);
    ghost var first := list.Contents();
    ghost var passed := false;
    var current := list.MappingSize();
    while size != current
      invariant list.Valid() && fresh(list) && fresh(list.cells) && list.AtEnd(pos)
      invariant first <= list.Contents()
      invariant current == |list.nodes| && (list.nodes != [] <==> Known(t, name)) && FromTable(list.Contents(), t)
      invariant if passed then size == current else size == 0 && it == Begin
      invariant closing ==> Growing(list.Contents(), t, zone, name == zone || passed)
      decreases size != current
    {
      pos, it := Pass(t, name, list, pos, it, zone, closing);
      size := list.MappingSize();
      current := size;
      passed := true;
    }
    if list.begin == null {
      return DtTimezoneNotFound, null;
    }
    if closing { GrownIsClosure(list.Contents(), t, name); }
    return DtOk, list;
  }

  lemma GrownIsClosure(s: seq<Alias>, t: seq<Row>, name: string)
    requires Known(t, name) && Growing(s, t, ZoneOf(t, name), true)
    ensures IsClosure(s, t, name)
  {
  }

  /** One step of the walk: the rows that the i-th alias names are added, unless it is no zone name
      or the name that the list started with. */
  method Follow(t: seq<Row>, name: string, list: AliasList, pos: Position, node: Node, ghost i: nat,
                ghost zone: string, ghost closing: bool)
    returns (pos': Position)
    requires list.Valid() && list.AtEnd(pos) && FromTable(list.Contents(), t)
    requires i < |list.nodes| && node == list.nodes[i]
    requires closing ==> ValidTable(t) && Growing(list.Contents(), t, zone, name == zone || i > 0)
    modifies list, list.cells
    ensures list.Valid() && list.AtEnd(pos') && FromTable(list.Contents(), t)
    ensures old(list.nodes) <= list.nodes && fresh(list.cells - old(list.cells))
    ensures old(list.Contents()) <= list.Contents()
    ensures closing ==> Growing(list.Contents(), t, zone, true)
  {
    hide ValidTable, ZoneAliases, AllAliases, Added, FromTable, Distinct;
    ghost var s := list.Contents();
    assert node.alias == s[i];
    pos' := pos;
    if node.alias.kind != Abbreviation && node.alias.name != name {
      if closing { KeepsGrowing(s, t, zone, name == zone || i > 0, node.alias); }
      StaysFromTable(s, t, node.alias.name);
      pos' := list.AddMapping(t, node.alias.name, pos);
    }
  }

  /** The walk over the list while it grows. */
  method Pass(t: seq<Row>, name: string, list: AliasList, pos: Position, start: Iterator,
              ghost zone: string, ghost closing: bool)
    returns (pos': Position, it: Iterator)
    requires start == Begin && list.Valid() && list.AtEnd(pos) && list.nodes != [] && FromTable(list.Contents(), t)
    requires closing ==> ValidTable(t) && Growing(list.Contents(), t, zone, name == zone)
    modifies list, list.cells
    ensures list.Valid() && list.AtEnd(pos') && fresh(list.cells - old(list.cells)) && list.nodes != []
    ensures FromTable(list.Contents(), t) && old(list.Contents()) <= list.Contents()
    ensures closing ==> Growing(list.Contents(), t, zone, true)
  {
    hide ValidTable, AllAliases, Growing, FromTable;
    pos' := pos;
    var status, node;
    status, it, node := list.Iterate(start, 0);
    ghost var i := 0;
    ListIsBounded(list.Contents(), t);
    while status == DtOk
      invariant list.Valid() && list.AtEnd(pos') && fresh(list.cells - old(list.cells))
      invariant 0 <= i <= |list.nodes| <= |AllAliases(t)| && FromTable(list.Contents(), t)
      invariant old(list.Contents()) <= list.Contents()
      invariant closing ==> Growing(list.Contents(), t, zone, name == zone || i > 0)
      invariant status == DtOk ==> i < |list.nodes| && node == list.nodes[i] && it == At(list.NodeAt(i + 1))
      invariant status != DtOk ==> i > 0
      decreases |AllAliases(t)| - i, status == DtOk
    {
      pos' := Follow(t, name, list, pos', node, i, zone, closing);
      ListIsBounded(list.Contents(), t);
      i := i + 1;
      status, it, node := list.Iterate(it, if it.node == null then |list.nodes| else i);
    }
  }

  /** The Windows name of a zone and each of its Olson names map to the same aliases. */
  lemma SameAliases(t: seq<Row>, i: nat, s1: seq<Alias>, s2: seq<Alias>)
    requires ValidTable(t) && i < |t| && Known(t, t[i].other) && Known(t, t[i].type_)
    requires IsClosure(s1, t, t[i].other) && IsClosure(s2, t, t[i].type_)
    ensures |s1| == |s2| && forall a :: a in s1 <==> a in s2
  {
    SameZone(t, i);
    var u := ZoneAliases(t, t[i].other);
    DistinctCounts(s1, u);
    DistinctCounts(s2, u);
  }

  lemma DistinctCounts(s: seq<Alias>, u: set<Alias>)
    requires Distinct(s) && forall a :: a in s <==> a in u
    ensures |s| == |u|
  {
    DistinctFits(s, u);
    SetFits(s, u);
  }
}
