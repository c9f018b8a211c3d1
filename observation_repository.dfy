/**
 * `ObservationRepository`: the finders over the observation table, the
 * distinct categories, and `find_by_entities`, which groups the observations
 * of several entities by entity id. The table is a sequence of rows in the
 * order the database returns them.
 */
module ObservationRepository {
  import opened Wrappers

  /** An observation row: `context` is nullable. */
  datatype Observation = Observation(id: int, entityId: int, content: string, category: string, context: Option<string>)

  /** The WHERE conditions the repository's queries use. */
  datatype Condition = EntityIs(entityId: int) | ContextIs(context: string) | CategoryIs(category: string) | EntityIn(entityIds: seq<int>)

  /** Whether a row satisfies a condition; a NULL context satisfies no equality. */
  predicate Holds(keep: Condition, o: Observation) {
    match keep
    case EntityIs(id) => o.entityId == id
    case ContextIs(c) => o.context == Some(c)
    case CategoryIs(c) => o.category == c
    case EntityIn(ids) => o.entityId in ids
  }

  /** The rows of `table` that satisfy `keep`, in table order. */
  function Where(table: seq<Observation>, keep: Condition): (r: seq<Observation>)
    ensures |r| <= |table|
    decreases |table|
  {
    if table == [] then []
    else
      var init := table[..|table| - 1];
      var x := table[|table| - 1];
      assert table == init + [x];
      Where(init, keep) + (if Holds(keep, x) then [x] else [])
  }

  /** A row is selected exactly as often as it occurs in the table, or never when it fails `keep`. */
  lemma {:induction false} WhereMembers(table: seq<Observation>, keep: Condition)
    ensures forall o :: o in Where(table, keep) <==> o in table && Holds(keep, o)
    ensures forall o :: multiset(Where(table, keep))[o] == if Holds(keep, o) then multiset(table)[o] else 0
    decreases |table|
  {
    if table != [] {
      var init, x := table[..|table| - 1], table[|table| - 1];
      assert table == init + [x];
      WhereMembers(init, keep);
      WhereSnoc(init, x, keep);
    }
  }

  lemma WhereSnoc(table: seq<Observation>, x: Observation, keep: Condition)
    ensures Where(table + [x], keep) == Where(table, keep) + (if Holds(keep, x) then [x] else [])
  {
    assert (table + [x])[..|table|] == table;
  }

  /** `find_by_entity`: WHERE entity_id = :entity_id. */
  function FindByEntity(table: seq<Observation>, entityId: int): (r: seq<Observation>)
    ensures forall o :: o in r <==> o in table && o.entityId == entityId
  {
    WhereMembers(table, EntityIs(entityId));
    Where(table, EntityIs(entityId))
  }

  lemma FindByEntitySnoc(rows: seq<Observation>, obs: Observation, k: int)
    ensures FindByEntity(rows + [obs], k) == FindByEntity(rows, k) + (if obs.entityId == k then [obs] else [])
  {
    WhereSnoc(rows, obs, EntityIs(k));
  }

  /** `find_by_context`: WHERE context = :context; a NULL context never equals anything. */
  function FindByContext(table: seq<Observation>, context: string): (r: seq<Observation>)
    ensures forall o :: o in r <==> o in table && o.context == Some(context)
  {
    WhereMembers(table, ContextIs(context));
    Where(table, ContextIs(context))
  }

  /** `find_by_category`: WHERE category = :category. */
  function FindByCategory(table: seq<Observation>, category: string): (r: seq<Observation>)
    ensures forall o :: o in r <==> o in table && o.category == category
  {
    WhereMembers(table, CategoryIs(category));
    Where(table, CategoryIs(category))
  }

  /** The values of `s` without repetitions, each at the place it first occurs. */
  function Distinct(s: seq<string>): (r: seq<string>)
    ensures forall i, j :: 0 <= i < j < |r| ==> r[i] != r[j]
    ensures forall v :: v in r <==> v in s
    decreases |s|
  {
    if s == [] then []
    else
      var init := s[..|s| - 1];
      var x := s[|s| - 1];
      assert s == init + [x];
      var d := Distinct(init);
      if x in d then d else d + [x]
  }

  /** `observation_categories`: SELECT DISTINCT category. */
  function ObservationCategories(table: seq<Observation>): (r: seq<string>)
    ensures forall i, j :: 0 <= i < j < |r| ==> r[i] != r[j]
    ensures forall c :: c in r <==> exists o :: o in table && o.category == c
  {
    var cats := seq(|table|, i requires 0 <= i < |table| => table[i].category);
    assert forall c :: c in cats <==> exists o :: o in table && o.category == c by {
      forall c | c in cats ensures exists o :: o in table && o.category == c {
        var i :| 0 <= i < |cats| && cats[i] == c;
        assert table[i] in table;
      }
      forall c | (exists o :: o in table && o.category == c) ensures c in cats {
        var o :| o in table && o.category == c;
        var i :| 0 <= i < |table| && table[i] == o;
        assert cats[i] == c;
      }
    }
    Distinct(cats)
  }

  /** The rows of the single query of `find_by_entities`: WHERE entity_id IN (:entity_ids). */
  function Requested(table: seq<Observation>, entityIds: seq<int>): seq<Observation> {
    Where(table, EntityIn(entityIds))
  }

  /** The sum of the group sizes of `groups`. */
  ghost function SizeSum(groups: map<int, seq<Observation>>): nat
    decreases |groups.Keys|
  {
    if groups == map[] then 0
    else
      MapHasKey(groups);
      var k :| k in groups;
      |groups[k]| + SizeSum(groups - {k})
  }

  lemma MapHasKey(groups: map<int, seq<Observation>>)
    requires groups != map[]
    ensures exists k :: k in groups
  {
    if forall k :: k !in groups {
      assert false;
    }
  }

  /** The sum does not depend on which key is taken out first. */
  lemma {:induction false} SizeSumRemove(groups: map<int, seq<Observation>>, k: int)
    requires k in groups
    ensures SizeSum(groups) == |groups[k]| + SizeSum(groups - {k})
    decreases |groups.Keys|
  {
    var j :| j in groups.Keys && SizeSum(groups) == |groups[j]| + SizeSum(groups - {j});
    if j != k {
      var rest := groups - {j};
      assert |rest.Keys| < |groups.Keys| by { assert rest.Keys < groups.Keys; }
      SizeSumRemove(rest, k);
      var both := rest - {k};
      assert both == (groups - {k}) - {j};
      assert |(groups - {k}).Keys| < |groups.Keys| by { assert (groups - {k}).Keys < groups.Keys; }
      SizeSumRemove(groups - {k}, j);
    }
  }

  /** Appending one row to one group, or starting a new group with it, adds one to the sum. */
  lemma SizeSumAppend(groups: map<int, seq<Observation>>, k: int, o: Observation)
    ensures k in groups ==> SizeSum(groups[k := groups[k] + [o]]) == SizeSum(groups) + 1
    ensures k !in groups ==> SizeSum(groups[k := [o]]) == SizeSum(groups) + 1
  {
    var g := if k in groups then groups[k := groups[k] + [o]] else groups[k := [o]];
    SizeSumRemove(g, k);
    assert g - {k} == groups - {k};
    if k in groups {
      SizeSumRemove(groups, k);
    } else {
      assert groups - {k} == groups;
    }
  }

  /**
   * `find_by_entities`: no ids gives the empty map without a query; otherwise
   * the rows of the single query are grouped by entity id.
   */
  method FindByEntities(table: seq<Observation>, entityIds: seq<int>) returns (groups: map<int, seq<Observation>>)
    ensures entityIds == [] ==> groups == map[]
    ensures forall k :: k in groups <==> k in entityIds && FindByEntity(table, k) != []
    ensures forall k :: k in groups ==> groups[k] == FindByEntity(table, k)
    ensures SizeSum(groups) == |Requested(table, entityIds)|
  {
    if entityIds == [] {
      var none := Requested(table, entityIds);
      WhereMembers(table, EntityIn(entityIds));
      return map[];
    }
    var observations := Requested(table, entityIds);
    groups := GroupByEntity(observations);
    GroupMapGrouped(observations);
    forall k ensures FindByEntity(observations, k) == if k in entityIds then FindByEntity(table, k) else [] {
      GroupOfRequested(table, entityIds, k);
    }
  }

  /** `groups` holds, under each entity id with rows, exactly those rows in order, and nothing else. */
  ghost predicate Grouped(groups: map<int, seq<Observation>>, rows: seq<Observation>) {
    && (forall k :: k in groups <==> FindByEntity(rows, k) != [])
    && (forall k :: k in groups ==> groups[k] == FindByEntity(rows, k))
    && SizeSum(groups) == |rows|
  }

  /** The map after one row is appended under its entity id (a new list for a new id). */
  function AddToGroup(groups: map<int, seq<Observation>>, obs: Observation): map<int, seq<Observation>> {
    if obs.entityId in groups then groups[obs.entityId := groups[obs.entityId] + [obs]]
    else groups[obs.entityId := [obs]]
  }

  lemma GroupedSnoc(groups: map<int, seq<Observation>>, rows: seq<Observation>, obs: Observation)
    requires Grouped(groups, rows)
    ensures Grouped(AddToGroup(groups, obs), rows + [obs])
  {
    SizeSumAppend(groups, obs.entityId, obs);
    forall k ensures FindByEntity(rows + [obs], k) == FindByEntity(rows, k) + (if obs.entityId == k then [obs] else []) {
      FindByEntitySnoc(rows, obs, k);
    }
  }

  /** The map the loop of `find_by_entities` has built after visiting `rows`. */
  function GroupMap(rows: seq<Observation>): map<int, seq<Observation>>
    decreases |rows|
  {
    if rows == [] then map[] else AddToGroup(GroupMap(rows[..|rows| - 1]), rows[|rows| - 1])
  }

  /** The map built from `rows` groups exactly the rows, each under its own entity id. */
  lemma {:induction false} GroupMapGrouped(rows: seq<Observation>)
    ensures Grouped(GroupMap(rows), rows)
    decreases |rows|
  {
    if rows != [] {
      var init, x := rows[..|rows| - 1], rows[|rows| - 1];
      assert rows == init + [x];
      assert GroupMap(rows) == AddToGroup(GroupMap(init), x);
      GroupMapGrouped(init);
      GroupedSnoc(GroupMap(init), init, x);
    }
  }

  /**
   * The loop of `find_by_entities`: each row is appended to the list under its
   * entity id, a list being created for the first row of each id.
   */
  method GroupByEntity(observations: seq<Observation>) returns (groups: map<int, seq<Observation>>)
    ensures groups == GroupMap(observations)
  {
    groups := map[];
    var i := 0;
    while i < |observations|
      invariant 0 <= i <= |observations|
      invariant groups == GroupMap(observations[..i])
    {
      groups := AppendToGroup(groups, observations[i]);
      assert observations[..i + 1][..i] == observations[..i];
      i := i + 1;
    }
    assert observations[..i] == observations;
  }

  /** One iteration: a new id gets an empty list first, then the row is appended to its id's list. */
  method AppendToGroup(groups0: map<int, seq<Observation>>, obs: Observation) returns (groups: map<int, seq<Observation>>)
    ensures groups == AddToGroup(groups0, obs)
  {
    groups := groups0;
    if obs.entityId !in groups {
      groups := groups[obs.entityId := []];
      assert groups[obs.entityId] + [obs] == [obs];
    }
    groups := groups[obs.entityId := groups[obs.entityId] + [obs]];
  }

  /** Grouping the query's rows under one id gives that id's rows of the table, or none for an id not asked for. */
  lemma {:induction false} GroupOfRequested(table: seq<Observation>, entityIds: seq<int>, k: int)
    ensures FindByEntity(Requested(table, entityIds), k) == if k in entityIds then FindByEntity(table, k) else []
    decreases |table|
  {
    if table != [] {
      var init, x := table[..|table| - 1], table[|table| - 1];
      assert table == init + [x];
      GroupOfRequested(init, entityIds, k);
      WhereSnoc(init, x, EntityIn(entityIds));
      WhereSnoc(init, x, EntityIs(k));
      assert FindByEntity(table, k) == FindByEntity(init, k) + (if x.entityId == k then [x] else []);
      if x.entityId in entityIds {
        assert Requested(table, entityIds) == Requested(init, entityIds) + [x];
        WhereSnoc(Requested(init, entityIds), x, EntityIs(k));
      } else {
        assert Requested(table, entityIds) == Requested(init, entityIds);
      }
    }
  }
}
