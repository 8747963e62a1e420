/**
 Map-data helpers: the level-name cache and its lookup, the choice of the
 starting room, the collection of dashless goldenberries, and the recount
 of a parent map's strawberries after a child map has been loaded into it.

 Source: Celeste.Mod.mm/Patches/MapData.cs.
 */
module MapData {
  import opened Wrappers
  import opened Grid
  import opened EntityData

  /** A room: its name and its entities in map order. */
  datatype Level = Level(name: string, entities: seq<Entity>)

  /** The levels of a map and the level-name cache (`None` while it is null). */
  datatype Map = Map(levels: seq<Level>, byName: Option<map<string, Level>>)

  // ---------------------------------------------------------------------
  // Finding levels by name
  // ---------------------------------------------------------------------

  /** The index of the first level called `name`, as `FirstOrDefault` scans. */
  function FirstNamed(levels: seq<Level>, name: string): (r: Option<nat>)
    ensures r.Some? ==> r.value < |levels| && levels[r.value].name == name
                        && forall j :: 0 <= j < r.value ==> levels[j].name != name
    ensures r.None? ==> forall j :: 0 <= j < |levels| ==> levels[j].name != name
  {
    if |levels| == 0 then None
    else if levels[0].name == name then Some(0)
    else match FirstNamed(levels[1..], name)
      case None => None
      case Some(i) => Some(i + 1)
  }

  /** The loop of `RegenerateLevelsByNameCache` from level `i` on: a level is
      added unless its name is already a key. */
  function CacheFrom(levels: seq<Level>, i: nat, cache: map<string, Level>): map<string, Level>
    requires i <= |levels|
    decreases |levels| - i
  {
    if i == |levels| then cache
    else if levels[i].name in cache then CacheFrom(levels, i + 1, cache)
    else CacheFrom(levels, i + 1, cache[levels[i].name := levels[i]])
  }

  /** `RegenerateLevelsByNameCache`: the cache is emptied and refilled. */
  function BuildCache(levels: seq<Level>): map<string, Level> {
    CacheFrom(levels, 0, map[])
  }

  /** The invariant of the cache loop for one name: after `i` levels the
      name is a key exactly when one of those levels has it, and then it
      maps to the first of them. */
  predicate CachedAfter(levels: seq<Level>, i: nat, cache: map<string, Level>, name: string)
    requires i <= |levels|
  {
    var f := FirstNamed(levels, name);
    && (name in cache <==> f.Some? && f.value < i)
    && (name in cache ==> cache[name] == levels[f.value])
  }

  lemma {:induction false} CacheFromFirstWins(levels: seq<Level>, i: nat, cache: map<string, Level>, name: string)
    requires i <= |levels| && CachedAfter(levels, i, cache, name)
    ensures CachedAfter(levels, |levels|, CacheFrom(levels, i, cache), name)
    decreases |levels| - i
  {
    if i < |levels| {
      var f := FirstNamed(levels, name);
      assert f == Some(i) ==> levels[i].name == name;
      if levels[i].name in cache {
        CacheFromFirstWins(levels, i + 1, cache, name);
      } else {
        CacheFromFirstWins(levels, i + 1, cache[levels[i].name := levels[i]], name);
      }
    }
  }

  /** The rebuilt cache maps every level name, and nothing else, to the
      first level with that name; later duplicates are skipped, and nothing
      from an earlier cache survives. */
  lemma CacheFirstWins(levels: seq<Level>)
    ensures forall name :: name in BuildCache(levels) <==> FirstNamed(levels, name).Some?
    ensures forall name :: name in BuildCache(levels) ==> BuildCache(levels)[name] == levels[FirstNamed(levels, name).value]
  {
    forall name
      ensures name in BuildCache(levels) <==> FirstNamed(levels, name).Some?
      ensures name in BuildCache(levels) ==> BuildCache(levels)[name] == levels[FirstNamed(levels, name).value]
    {
      CacheFromFirstWins(levels, 0, map[], name);
    }
  }

  /** `RegenerateLevelsByNameCache` on a map. */
  function Regenerate(m: Map): (r: Map)
    ensures r.levels == m.levels && r.byName.Some?
    ensures forall name :: name in r.byName.value <==> exists j :: 0 <= j < |m.levels| && m.levels[j].name == name
    ensures forall name :: name in r.byName.value ==> r.byName.value[name].name == name
  {
    CacheFirstWins(m.levels);
    var r := m.(byName := Some(BuildCache(m.levels)));
    forall name ensures name in r.byName.value <==> exists j :: 0 <= j < |m.levels| && m.levels[j].name == name {
      if exists j :: 0 <= j < |m.levels| && m.levels[j].name == name {
        assert FirstNamed(m.levels, name).Some?;
      }
    }
    r
  }

  /** The cache is current: absent, or what a rebuild would produce. */
  predicate CacheCurrent(m: Map) {
    m.byName.None? || m.byName.value == BuildCache(m.levels)
  }

  /** `Get(levelName)`: rebuilds a null cache, then looks the name up. */
  function Get(m: Map, name: string): (r: (Map, Option<Level>))
    ensures r.0.levels == m.levels && r.0.byName.Some?
    ensures m.byName.Some? ==> r.0 == m
    ensures CacheCurrent(m) ==> CacheCurrent(r.0)
  {
    var m := if m.byName.None? then Regenerate(m) else m;
    (m, if name in m.byName.value then Some(m.byName.value[name]) else None)
  }

  /** With a current cache, `Get` finds the first level of that name, and
      null exactly when no level has it. */
  lemma GetFindsFirst(m: Map, name: string)
    requires CacheCurrent(m)
    ensures var level := Get(m, name).1;
            && (level.None? <==> FirstNamed(m.levels, name).None?)
            && (level.Some? ==> level.value == m.levels[FirstNamed(m.levels, name).value])
  {
    CacheFirstWins(m.levels);
  }

  // ---------------------------------------------------------------------
  // The starting room
  // ---------------------------------------------------------------------

  /** `StartLevel()`. `metaStart` is the mode metadata's start level name
      (`None` when the metadata or the name is null); `original` is what the
      game's own lookup of the room at the origin returns. */
  function StartLevel(levels: seq<Level>, metaStart: Option<string>, original: Option<Level>): (r: Option<Level>)
    ensures r.Some? ==> r.value in levels || r == original
    ensures r.None? <==> original.None? && |levels| == 0
  {
    var named := if metaStart.Some? && metaStart.value != "" then FirstNamed(levels, metaStart.value) else None;
    if named.Some? then Some(levels[named.value])
    else if original.Some? then original
    else if |levels| > 0 then Some(levels[0])
    else None
  }

  /** The order of preference: the named room when it exists, then the
      game's own start room, then the first room. */
  lemma StartLevelPreference(levels: seq<Level>, metaStart: Option<string>, original: Option<Level>)
    ensures var r := StartLevel(levels, metaStart, original);
            && (metaStart.Some? && metaStart.value != "" && FirstNamed(levels, metaStart.value).Some? ==>
                  r == Some(levels[FirstNamed(levels, metaStart.value).value]))
            && ((metaStart.None? || metaStart.value == "" || FirstNamed(levels, metaStart.value).None?) ==>
                  r == if original.Some? then original else if |levels| > 0 then Some(levels[0]) else None)
  {
  }

  // ---------------------------------------------------------------------
  // Dashless goldenberries
  // ---------------------------------------------------------------------

  const DashlessName := "memorialTextController"

  function DashlessIn(entities: seq<Entity>): (r: seq<Entity>)
    ensures forall e :: e in r ==> e.name == DashlessName
    ensures forall e :: e in r <==> e in entities && e.name == DashlessName
  {
    if |entities| == 0 then []
    else (if entities[0].name == DashlessName then [entities[0]] else []) + DashlessIn(entities[1..])
  }

  /** The entities named `memorialTextController`, level by level in map order. */
  function Dashless(levels: seq<Level>): (r: seq<Entity>)
    ensures forall e :: e in r ==> e.name == DashlessName
  {
    if |levels| == 0 then [] else DashlessIn(levels[0].entities) + Dashless(levels[1..])
  }

  /** An entity is collected exactly when it is a dashless goldenberry
      controller in some level. */
  lemma {:induction false} DashlessComplete(levels: seq<Level>, e: Entity)
    ensures e in Dashless(levels) <==> e.name == DashlessName && exists i :: 0 <= i < |levels| && e in levels[i].entities
  {
    if |levels| > 0 {
      DashlessComplete(levels[1..], e);
      if exists i :: 0 <= i < |levels[1..]| && e in levels[1..][i].entities {
        var i :| 0 <= i < |levels[1..]| && e in levels[1..][i].entities;
        assert e in levels[i + 1].entities;
      }
      if exists i :: 0 <= i < |levels| && e in levels[i].entities {
        var i :| 0 <= i < |levels| && e in levels[i].entities;
        if i > 0 {
          assert e in levels[1..][i - 1].entities;
        }
      }
    }
  }

  /** How many entities of a level carry the controller's name. */
  function NamedIn(entities: seq<Entity>): nat {
    if |entities| == 0 then 0
    else (if entities[0].name == DashlessName then 1 else 0) + NamedIn(entities[1..])
  }

  /** The controllers of every level, summed in map order. */
  function NamedTotal(levels: seq<Level>): nat {
    if |levels| == 0 then 0 else NamedIn(levels[0].entities) + NamedTotal(levels[1..])
  }

  /** One entry per controller: the list is as long as the levels hold
      controllers in all, duplicates included. */
  lemma {:induction false} DashlessCount(levels: seq<Level>)
    ensures |Dashless(levels)| == NamedTotal(levels)
  {
    if |levels| > 0 {
      DashlessInCount(levels[0].entities);
      DashlessCount(levels[1..]);
    }
  }

  lemma {:induction false} DashlessInCount(entities: seq<Entity>)
    ensures |DashlessIn(entities)| == NamedIn(entities)
  {
    if |entities| > 0 {
      DashlessInCount(entities[1..]);
    }
  }

  // ---------------------------------------------------------------------
  // Strawberry recount of the parent map
  // ---------------------------------------------------------------------

  /** A strawberry with the attributes the recount reads: `moon`,
      `checkpointIDParented` (if present), `checkpointID` and `order`. */
  datatype Berry = Berry(entity: Entity, moon: bool, parented: Option<int>, checkpoint: int, order: int)

  /** The checkpoint the berry is counted under. */
  function CheckpointOf(b: Berry): int {
    b.parented.GetOr(b.checkpoint)
  }

  /** The exception that ends the recount: `Array.Copy` refusing a row while
      the table grows, an index out of range (storing at a negative index, or
      a checkpoint past the list), or a null checkpoint. */
  datatype RecountError = CopyFailed | IndexOutOfRange | NullCheckpoint

  /** The parent mode's berry fields: the total, the berries before the first
      checkpoint, each checkpoint's count (`None` for a null checkpoint; the
      whole list is `None` when it is null) and the berry table. */
  datatype Counts = Counts(total: int, start: int, checkpoints: Option<seq<Option<int>>>, byCheckpoint: Grid<Berry>)

  /** Where the recount stopped: the fields as left, and the exception that
      stopped it, if any. */
  datatype Outcome = Outcome(counts: Counts, error: Option<RecountError>)

  predicate ValidCounts(c: Counts) {
    Valid(c.byCheckpoint)
  }

  /** The non-null checkpoints are reset to zero. */
  function ResetCheckpoints(cps: seq<Option<int>>): (r: seq<Option<int>>)
    ensures |r| == |cps|
    ensures forall i :: 0 <= i < |r| ==> r[i] == (if cps[i].Some? then Some(0) else None)
  {
    seq(|cps|, i requires 0 <= i < |cps| => if cps[i].Some? then Some(0) else None)
  }

  /** One non-moon berry. */
  function Count(c: Counts, b: Berry): (r: Outcome)
    requires ValidCounts(c)
    ensures ValidCounts(r.counts)
  {
    var id := CheckpointOf(b);
    match GrowAndGet(c.byCheckpoint, id, b.order)
    case Failure(_) => Outcome(c, Some(CopyFailed))
    case Success((table, cell)) =>
      var c := c.(byCheckpoint := table);
      if cell.None? && (id < 0 || b.order < 0) then Outcome(c, Some(IndexOutOfRange))
      else
        var c := if cell.None? then c.(byCheckpoint := Put(table, id, b.order, b)) else c;
        if id == 0 then Outcome(c.(start := c.start + 1, total := c.total + 1), None)
        else if c.checkpoints.None? then Outcome(c.(total := c.total + 1), None)
        else
          var cps := c.checkpoints.value;
          if !(1 <= id <= |cps|) then Outcome(c, Some(IndexOutOfRange))
          else if cps[id - 1].None? then Outcome(c, Some(NullCheckpoint))
          else
            var cps := cps[id - 1 := Some(cps[id - 1].value + 1)];
            Outcome(c.(checkpoints := Some(cps), total := c.total + 1), None)
  }

  /** The loop over the parent's strawberries; an exception ends it with the
      fields as they were when it was thrown. */
  function CountAll(c: Counts, berries: seq<Berry>): (r: Outcome)
    requires ValidCounts(c)
    ensures ValidCounts(r.counts)
    decreases |berries|
  {
    if |berries| == 0 then Outcome(c, None)
    else if berries[0].moon then CountAll(c, berries[1..])
    else
      var o := Count(c, berries[0]);
      if o.error.Some? then o else CountAll(o.counts, berries[1..])
  }

  /** The recount: totals zeroed, a fresh 10 by 25 table, non-null
      checkpoints reset, then every non-moon berry counted. */
  function Recount(checkpoints: Option<seq<Option<int>>>, berries: seq<Berry>): Outcome {
    var cps := if checkpoints.Some? then Some(ResetCheckpoints(checkpoints.value)) else None;
    CountAll(Counts(0, 0, cps, Blank(10, 25)), berries)
  }

  /** The parent mode as the child map finds it: the parent's loaded map
      data (its strawberries; `None` while unloaded) and its checkpoints. */
  datatype ParentMode = ParentMode(strawberries: Option<seq<Berry>>, checkpoints: Option<seq<Option<int>>>)

  /** The parent branch of `Load`: nothing happens while the parent map is
      unloaded; otherwise the child's berries are appended to the parent's
      and the parent's counts are redone over the combined list. */
  function LoadIntoParent(parent: ParentMode, own: seq<Berry>): (r: Option<(seq<Berry>, Outcome)>)
    ensures r.None? <==> parent.strawberries.None?
    ensures r.Some? ==> |r.value.0| == |parent.strawberries.value| + |own|
    ensures r.Some? ==> r.value.0[..|parent.strawberries.value|] == parent.strawberries.value
                        && r.value.0[|parent.strawberries.value|..] == own
  {
    match parent.strawberries
    case None => None
    case Some(berries) =>
      var all := berries + own;
      assert all[..|berries|] == berries && all[|berries|..] == own;
      Some((all, Recount(parent.checkpoints, all)))
  }

  // --- reference counts ---

  function NonMoon(berries: seq<Berry>): nat {
    if |berries| == 0 then 0 else (if berries[0].moon then 0 else 1) + NonMoon(berries[1..])
  }

  function CountAt(berries: seq<Berry>, id: int): nat {
    if |berries| == 0 then 0
    else (if !berries[0].moon && CheckpointOf(berries[0]) == id then 1 else 0) + CountAt(berries[1..], id)
  }

  /** Every non-moon berry's checkpoint is 0 or names a non-null checkpoint. */
  predicate CheckpointsExist(cps: seq<Option<int>>, berries: seq<Berry>) {
    forall k :: 0 <= k < |berries| && !berries[k].moon && CheckpointOf(berries[k]) != 0 ==>
      1 <= CheckpointOf(berries[k]) <= |cps| && cps[CheckpointOf(berries[k]) - 1].Some?
  }

  /** Both checkpoint lists are null, or both have the same length and the
      same null entries. */
  ghost predicate SameShape(a: Option<seq<Option<int>>>, b: Option<seq<Option<int>>>) {
    && (a.None? <==> b.None?)
    && (a.Some? && b.Some? ==>
          |a.value| == |b.value| && forall i :: 0 <= i < |a.value| ==> (a.value[i].Some? <==> b.value[i].Some?))
  }

  /** `after` is `before` with the berries counted in: the total rises by the
      non-moon berries, the start count by those of checkpoint 0, and each
      non-null checkpoint by its own; every counted checkpoint exists. */
  ghost predicate Tallied(before: Counts, after: Counts, berries: seq<Berry>) {
    && after.total == before.total + NonMoon(berries)
    && after.start == before.start + CountAt(berries, 0)
    && SameShape(before.checkpoints, after.checkpoints)
    && (before.checkpoints.Some? && after.checkpoints.Some? ==>
          && CheckpointsExist(before.checkpoints.value, berries)
          && forall i :: 0 <= i < |before.checkpoints.value| && i < |after.checkpoints.value| && before.checkpoints.value[i].Some? ==>
               after.checkpoints.value[i].Some?
               && after.checkpoints.value[i].value == before.checkpoints.value[i].value + CountAt(berries, i + 1))
  }

  /** A counted berry adds one to the total and one to its checkpoint. */
  lemma CountOne(c: Counts, b: Berry)
    requires ValidCounts(c) && !b.moon && Count(c, b).error.None?
    ensures Tallied(c, Count(c, b).counts, [b])
  {
    CountFields(c, b);
    assert NonMoon([b]) == 1;
    assert forall id :: CountAt([b], id) == if CheckpointOf(b) == id then 1 else 0;
  }

  /** What a successful count does to the counters, apart from the table. */
  lemma CountFields(c: Counts, b: Berry)
    requires ValidCounts(c) && Count(c, b).error.None?
    ensures var r, id := Count(c, b).counts, CheckpointOf(b);
            && r.total == c.total + 1
            && r.start == c.start + (if id == 0 then 1 else 0)
            && (id == 0 || c.checkpoints.None? ==> r.checkpoints == c.checkpoints)
            && (id != 0 && c.checkpoints.Some? ==>
                  var cps := c.checkpoints.value;
                  1 <= id <= |cps| && cps[id - 1].Some?
                  && r.checkpoints == Some(cps[id - 1 := Some(cps[id - 1].value + 1)]))
  {
  }

  /** A moon berry is skipped. */
  lemma MoonUncounted(c: Counts, b: Berry)
    requires b.moon
    ensures Tallied(c, c, [b])
  {
    assert NonMoon([b]) == 0;
    assert forall id :: CountAt([b], id) == 0;
  }

  /** Counting a head and then a tail counts the whole list. */
  lemma TallyCons(c: Counts, mid: Counts, r: Counts, berries: seq<Berry>)
    requires |berries| > 0
    requires Tallied(c, mid, berries[..1]) && Tallied(mid, r, berries[1..])
    ensures Tallied(c, r, berries)
  {
    var b, rest := berries[0], berries[1..];
    assert berries[..1] == [b];
    assert NonMoon(berries) == NonMoon([b]) + NonMoon(rest);
    assert forall id :: CountAt(berries, id) == CountAt([b], id) + CountAt(rest, id);
    if c.checkpoints.Some? && r.checkpoints.Some? {
      ExistsTail(c.checkpoints, berries);
    }
  }

  /** The invariant of the recount loop, by induction over the berries. */
  lemma {:induction false} CountAllTotals(c: Counts, berries: seq<Berry>)
    requires ValidCounts(c) && CountAll(c, berries).error.None?
    ensures Tallied(c, CountAll(c, berries).counts, berries)
    decreases |berries|
  {
    if |berries| == 0 {
      assert NonMoon(berries) == 0;
      assert forall id :: CountAt(berries, id) == 0;
    } else {
      var rest := berries[1..];
      assert berries[..1] == [berries[0]];
      if berries[0].moon {
        assert CountAll(c, berries) == CountAll(c, rest);
        MoonUncounted(c, berries[0]);
        CountAllTotals(c, rest);
        TallyCons(c, c, CountAll(c, rest).counts, berries);
      } else {
        var o := Count(c, berries[0]);
        assert CountAll(c, berries) == CountAll(o.counts, rest);
        CountOne(c, berries[0]);
        CountAllTotals(o.counts, rest);
        TallyCons(c, o.counts, CountAll(o.counts, rest).counts, berries);
      }
    }
  }

  /** `CheckpointsExist` for a list follows from its head and its tail. */
  lemma ExistsTail(cps: Option<seq<Option<int>>>, berries: seq<Berry>)
    requires |berries| > 0 && cps.Some?
    requires CheckpointsExist(cps.value, berries[1..])
    requires !berries[0].moon && CheckpointOf(berries[0]) != 0 ==>
               1 <= CheckpointOf(berries[0]) <= |cps.value| && cps.value[CheckpointOf(berries[0]) - 1].Some?
    ensures CheckpointsExist(cps.value, berries)
  {
    forall k | 0 <= k < |berries| && !berries[k].moon && CheckpointOf(berries[k]) != 0
      ensures 1 <= CheckpointOf(berries[k]) <= |cps.value| && cps.value[CheckpointOf(berries[k]) - 1].Some?
    {
      if k > 0 {
        assert berries[k] == berries[1..][k - 1];
      }
    }
  }

  /** A recount that ran to the end counted every non-moon berry once, the
      berries before the first checkpoint separately, and each non-null
      checkpoint's own berries; and then every counted checkpoint exists. */
  lemma RecountTotals(checkpoints: Option<seq<Option<int>>>, berries: seq<Berry>)
    requires Recount(checkpoints, berries).error.None?
    ensures var r := Recount(checkpoints, berries).counts;
            && r.total == NonMoon(berries)
            && r.start == CountAt(berries, 0)
            && (r.checkpoints.None? <==> checkpoints.None?)
            && (checkpoints.Some? ==>
                  && |r.checkpoints.value| == |checkpoints.value|
                  && CheckpointsExist(checkpoints.value, berries)
                  && forall i :: 0 <= i < |checkpoints.value| ==>
                       (r.checkpoints.value[i].Some? <==> checkpoints.value[i].Some?)
                       && (checkpoints.value[i].Some? ==> r.checkpoints.value[i].value == CountAt(berries, i + 1)))
  {
    var cps := if checkpoints.Some? then Some(ResetCheckpoints(checkpoints.value)) else None;
    var c: Counts := Counts(0, 0, cps, Blank(10, 25));
    CountAllTotals(c, berries);
    if checkpoints.Some? {
      var reset := cps.value;
      assert CheckpointsExist(reset, berries);
      forall k | 0 <= k < |berries| && !berries[k].moon && CheckpointOf(berries[k]) != 0
        ensures 1 <= CheckpointOf(berries[k]) <= |checkpoints.value| && checkpoints.value[CheckpointOf(berries[k]) - 1].Some?
      {
        assert reset[CheckpointOf(berries[k]) - 1].Some?;
      }
    }
  }

  /** Every non-moon berry fits the first 10 by 25 table, with a
      non-negative checkpoint and order. */
  predicate InFirstTable(berries: seq<Berry>) {
    forall k :: 0 <= k < |berries| && !berries[k].moon ==>
      0 <= CheckpointOf(berries[k]) < 10 && 0 <= berries[k].order < 25
  }

  /** Within the first table, the recount runs to the end exactly when every
      counted checkpoint exists (or the list is null). */
  lemma RecountFinishesIff(checkpoints: Option<seq<Option<int>>>, berries: seq<Berry>)
    requires InFirstTable(berries)
    ensures var finished := Recount(checkpoints, berries).error.None?;
            finished <==> (checkpoints.Some? ==> CheckpointsExist(checkpoints.value, berries))
  {
    if checkpoints.Some? && CheckpointsExist(checkpoints.value, berries) {
      ExistsSameShape(checkpoints.value, ResetCheckpoints(checkpoints.value), berries);
    }
    if checkpoints.None? || CheckpointsExist(checkpoints.value, berries) {
      var cps := if checkpoints.Some? then Some(ResetCheckpoints(checkpoints.value)) else None;
      CountAllFinishes(Counts(0, 0, cps, Blank(10, 25)), berries);
    }
    if Recount(checkpoints, berries).error.None? {
      RecountTotals(checkpoints, berries);
    }
  }

  /** `CheckpointsExist` reads only the length and the null entries. */
  lemma ExistsSameShape(a: seq<Option<int>>, b: seq<Option<int>>, berries: seq<Berry>)
    requires |a| == |b| && forall i :: 0 <= i < |a| ==> (a[i].Some? <==> b[i].Some?)
    requires CheckpointsExist(a, berries)
    ensures CheckpointsExist(b, berries)
  {
  }

  /** The loop runs to the end while the table keeps its first size and
      every counted checkpoint exists. */
  lemma {:induction false} CountAllFinishes(c: Counts, berries: seq<Berry>)
    requires ValidCounts(c) && c.byCheckpoint.rows == 10 && c.byCheckpoint.cols == 25
    requires InFirstTable(berries)
    requires c.checkpoints.Some? ==> CheckpointsExist(c.checkpoints.value, berries)
    ensures CountAll(c, berries).error.None?
    decreases |berries|
  {
    if |berries| > 0 {
      var rest := berries[1..];
      assert InFirstTable(rest) by {
        forall k | 0 <= k < |rest| && !rest[k].moon
          ensures 0 <= CheckpointOf(rest[k]) < 10 && 0 <= rest[k].order < 25
        {
          assert rest[k] == berries[k + 1];
        }
      }
      if berries[0].moon {
        ExistsRest(c.checkpoints, berries);
        CountAllFinishes(c, rest);
      } else {
        var o := Count(c, berries[0]);
        CountFinishes(c, berries[0]);
        ExistsRest(c.checkpoints, berries);
        if c.checkpoints.Some? {
          ExistsSameShape(c.checkpoints.value, o.counts.checkpoints.value, rest);
        }
        CountAllFinishes(o.counts, rest);
      }
    }
  }

  /** `CheckpointsExist` for a list holds for its tail. */
  lemma ExistsRest(cps: Option<seq<Option<int>>>, berries: seq<Berry>)
    requires |berries| > 0
    requires cps.Some? ==> CheckpointsExist(cps.value, berries)
    ensures cps.Some? ==> CheckpointsExist(cps.value, berries[1..])
  {
    if cps.Some? {
      forall k | 0 <= k < |berries[1..]| && !berries[1..][k].moon && CheckpointOf(berries[1..][k]) != 0
        ensures 1 <= CheckpointOf(berries[1..][k]) <= |cps.value| && cps.value[CheckpointOf(berries[1..][k]) - 1].Some?
      {
        assert berries[1..][k] == berries[k + 1];
      }
    }
  }

  /** One berry inside the first table under an existing checkpoint is
      counted without an exception, and the table and the checkpoints keep
      their shape. */
  lemma CountFinishes(c: Counts, b: Berry)
    requires ValidCounts(c) && c.byCheckpoint.rows == 10 && c.byCheckpoint.cols == 25
    requires !b.moon && 0 <= CheckpointOf(b) < 10 && 0 <= b.order < 25
    requires c.checkpoints.Some? && CheckpointOf(b) != 0 ==>
               1 <= CheckpointOf(b) <= |c.checkpoints.value| && c.checkpoints.value[CheckpointOf(b) - 1].Some?
    ensures var r := Count(c, b);
            && r.error.None?
            && r.counts.byCheckpoint.rows == 10 && r.counts.byCheckpoint.cols == 25
            && (r.counts.checkpoints.Some? <==> c.checkpoints.Some?)
            && (c.checkpoints.Some? ==>
                  |r.counts.checkpoints.value| == |c.checkpoints.value|
                  && forall i :: 0 <= i < |c.checkpoints.value| ==>
                       (r.counts.checkpoints.value[i].Some? <==> c.checkpoints.value[i].Some?))
  {
    assert Abs(CheckpointOf(b)) == CheckpointOf(b) && Abs(b.order) == b.order;
  }

  /** Outside the first table the recount can stop with every checkpoint
      present: a berry under checkpoint 20 grows the table to 30 rows, and a
      later berry at order 30 under checkpoint 1 asks for 11 rows, so the
      row-by-row copy runs past the new array. */
  lemma RecountCopyFails(e: Entity)
    ensures var far := Berry(e, false, None, 20, 0);
            var wide := Berry(e, false, None, 1, 30);
            Recount(None, [far, wide]).error == Some(CopyFailed)
  {
    var far := Berry(e, false, None, 20, 0);
    var wide := Berry(e, false, None, 1, 30);
    var c := Counts(0, 0, None, Blank(10, 25));
    FarBerryGrows(c, far);
    var o := Count(c, far);
    GrowFailsWhenRowsShrink(o.counts.byCheckpoint, 1, 30);
    assert Count(o.counts, wide).error == Some(CopyFailed);
    assert CountAll(o.counts, [wide]) == Count(o.counts, wide);
    assert [far, wide][1..] == [wide];
    assert Recount(None, [far, wide]) == CountAll(o.counts, [wide]);
  }

  lemma FarBerryGrows(c: Counts, far: Berry)
    requires c == Counts(0, 0, None, Blank(10, 25))
    requires !far.moon && far.parented.None? && far.checkpoint == 20 && far.order == 0
    ensures var o := Count(c, far);
            o.error.None? && o.counts.byCheckpoint.rows == 30 && o.counts.byCheckpoint.cols == 25
  {
    assert CheckpointOf(far) == 20 && Abs(20) == 20 && Abs(0) == 0;
    GrowKeepsCells(c.byCheckpoint, 20, 0);
    var g := GrowAndGet(c.byCheckpoint, 20, 0).value.0;
    assert g.rows == 30 && g.cols == 25;
  }
}
