/**
 Dynamic registration of entity and component types with the scene tracker:
 `GetSubclasses`, `AddSpecificType`, both `AddTypeToTracker` overloads, the
 `[TrackedAs]` pass of `Initialize` with its version handling, and
 `Refresh`, which brings a scene's tracker up to date.

 Reflection is replaced by an explicit universe of numbered types with
 their assignability, abstractness and `[TrackedAs]` attributes.

 Source: Celeste.Mod.mm/Patches/Monocle/Tracker.cs.
 */
module Tracker {
  import opened Wrappers

  /** A type, by number. */
  type TypeId = nat

  /** The loaded types in enumeration order; `assignableFrom(a, b)` is
      `a.IsAssignableFrom(b)`; `isEntity`/`isComponent` say whether the type
      derives from `Entity`/`Component`; `attributes` lists a type's
      `[TrackedAs(type, inherited)]` attributes. */
  datatype Universe = Universe(
    types: seq<TypeId>,
    assignableFrom: (TypeId, TypeId) -> bool,
    isAbstract: TypeId -> bool,
    isEntity: TypeId -> bool,
    isComponent: TypeId -> bool,
    attributes: TypeId -> seq<(TypeId, bool)>)

  /** `TrackedEntityTypes` / `TrackedComponentTypes`: for each type, the
      types whose lists an instance of it joins. */
  type Tracked = map<TypeId, seq<TypeId>>

  /** The static tracker state: both tables, the stored type sets, the
      version counter and the temporary type cache (`None` when null). */
  datatype Registry = Registry(
    entityTypes: Tracked,
    componentTypes: Tracked,
    storedEntities: set<TypeId>,
    storedComponents: set<TypeId>,
    version: int,
    allTypes: Option<seq<TypeId>>)

  /** The exception for a type that is neither an entity nor a component. */
  datatype TrackError = NotTrackable(t: TypeId)

  function Get(t: Tracked, k: TypeId): seq<TypeId> {
    if k in t then t[k] else []
  }

  predicate NoDups<T(==)>(s: seq<T>) {
    forall i, j :: 0 <= i < j < |s| ==> s[i] != s[j]
  }

  /** Every list in the table is free of duplicates, as the game's own
      initialisation leaves it and as every `Distinct` keeps it. */
  predicate ValidTracked(t: Tracked) {
    forall k :: k in t ==> NoDups(t[k])
  }

  // ---------------------------------------------------------------------
  // Enumerable.Distinct
  // ---------------------------------------------------------------------

  /** `Distinct()`: the first occurrence of each element, in order. */
  function Distinct(s: seq<TypeId>): (r: seq<TypeId>)
    ensures NoDups(r) && |r| <= |s|
    ensures forall x :: x in r <==> x in s
  {
    if |s| == 0 then []
    else
      var d := Distinct(s[..|s| - 1]);
      assert forall x :: x in s <==> x in s[..|s| - 1] || x == s[|s| - 1];
      if s[|s| - 1] in d then d else d + [s[|s| - 1]]
  }

  /** Appending to a list without duplicates and removing duplicates keeps
      the list as a prefix. */
  lemma {:induction false} DistinctKeepsPrefix(x: seq<TypeId>, y: seq<TypeId>)
    requires NoDups(x)
    ensures x <= Distinct(x + y)
    decreases |y|
  {
    if |y| == 0 {
      assert x + y == x;
      DistinctOfDistinct(x);
    } else {
      var y' := y[..|y| - 1];
      assert (x + y)[..|x + y| - 1] == x + y';
      DistinctKeepsPrefix(x, y');
    }
  }

  lemma {:induction false} DistinctOfDistinct(x: seq<TypeId>)
    requires NoDups(x)
    ensures Distinct(x) == x
  {
    if |x| > 0 {
      var x' := x[..|x| - 1];
      DistinctOfDistinct(x');
      assert x[|x| - 1] !in x';
      assert x' + [x[|x| - 1]] == x;
    }
  }

  /** With `x` free of duplicates, `Distinct(x + y)` is longer than `x`
      exactly when `y` holds something `x` lacks. */
  lemma DistinctGrows(x: seq<TypeId>, y: seq<TypeId>)
    requires NoDups(x)
    ensures |Distinct(x + y)| >= |x|
    ensures |Distinct(x + y)| > |x| <==> exists e :: e in y && e !in x
  {
    var d := Distinct(x + y);
    DistinctKeepsPrefix(x, y);
    if exists e :: e in y && e !in x {
      var e :| e in y && e !in x;
      assert e in x + y;
      var i :| 0 <= i < |d| && d[i] == e;
      assert i >= |x|;
    } else {
      DistinctKnown(x, y);
    }
  }

  /** Appending only known elements and removing duplicates gives the list back. */
  lemma {:induction false} DistinctKnown(x: seq<TypeId>, y: seq<TypeId>)
    requires NoDups(x) && forall e :: e in y ==> e in x
    ensures Distinct(x + y) == x
    decreases |y|
  {
    if |y| == 0 {
      assert x + y == x;
      DistinctOfDistinct(x);
    } else {
      var y' := y[..|y| - 1];
      assert (x + y)[..|x + y| - 1] == x + y';
      assert forall e :: e in y' ==> e in y;
      DistinctKnown(x, y');
      assert y[|y| - 1] in y;
    }
  }

  // ---------------------------------------------------------------------
  // GetSubclasses
  // ---------------------------------------------------------------------

  /** The types of `all` other than `t` that are assignable to `t`, in order. */
  function Subclasses(u: Universe, all: seq<TypeId>, t: TypeId): (r: seq<TypeId>)
    ensures forall x :: x in r <==> x in all && x != t && u.assignableFrom(t, x)
  {
    if |all| == 0 then []
    else
      var rest := Subclasses(u, all[1..], t);
      assert forall x :: x in all <==> x == all[0] || x in all[1..];
      if all[0] != t && u.assignableFrom(t, all[0]) then [all[0]] + rest else rest
  }

  /** `GetSubclasses(type)`: scans the temporary cache, or the universe when
      the cache is null; the cache is left exactly as it was. */
  function GetSubclasses(u: Universe, reg: Registry, t: TypeId): (r: (seq<TypeId>, Registry))
    ensures r.1 == reg
    ensures forall x :: x in r.0 <==> x in (if reg.allTypes.Some? then reg.allTypes.value else u.types)
                                        && x != t && u.assignableFrom(t, x)
  {
    var all := if reg.allTypes.Some? then reg.allTypes.value else u.types;
    (Subclasses(u, all, t), reg)
  }

  // ---------------------------------------------------------------------
  // AddSpecificType
  // ---------------------------------------------------------------------

  /** `AddSpecificType(type, trackedAsType, tracked)`: an abstract type is
      refused; otherwise the type's list (created empty when missing) gets
      the tracked-as type's list appended and duplicates removed, and the
      result says whether its length changed. */
  function AddSpecificType(u: Universe, t: TypeId, as_: TypeId, tracked: Tracked): (r: (bool, Tracked))
    ensures u.isAbstract(t) ==> r == (false, tracked)
    ensures !u.isAbstract(t) ==> t in r.1 && r.1.Keys == tracked.Keys + {t}
    ensures forall k :: k in tracked && k != t ==> r.1[k] == tracked[k]
    ensures !u.isAbstract(t) ==> forall x :: x in r.1[t] <==> x in Get(tracked, t) || x in Get(tracked, as_)
  {
    if u.isAbstract(t) then (false, tracked)
    else
      var value := Get(tracked, t);
      var withKey := tracked[t := value];
      var list := Get(withKey, as_);
      assert list == Get(tracked, as_) || (as_ == t && list == value);
      var result := Distinct(value + list);
      (|value| != |result|, withKey[t := result])
  }

  /** Each list is the one before with new types appended. */
  ghost predicate Extends(before: Tracked, after: Tracked) {
    && before.Keys <= after.Keys
    && forall k :: k in after ==> Get(before, k) <= after[k]
  }

  /** Some list got longer. */
  ghost predicate Grew(before: Tracked, after: Tracked) {
    exists k :: k in after && |after[k]| > |Get(before, k)|
  }

  /** On a valid table `AddSpecificType` keeps the table valid, only extends
      lists, and reports a change exactly when the tracked-as type's list
      held a type the type's own list lacked, which is exactly when the
      type's list grew. */
  lemma AddSpecificTypeExtends(u: Universe, t: TypeId, as_: TypeId, tracked: Tracked)
    requires ValidTracked(tracked)
    ensures var r := AddSpecificType(u, t, as_, tracked);
            && ValidTracked(r.1)
            && Extends(tracked, r.1)
            && (r.0 <==> !u.isAbstract(t) && exists x :: x in Get(tracked, as_) && x !in Get(tracked, t))
            && (r.0 <==> Grew(tracked, r.1))
  {
    var r := AddSpecificType(u, t, as_, tracked);
    var changed, after := r.0, r.1;
    if !u.isAbstract(t) {
      var value := Get(tracked, t);
      var list := Get(tracked[t := value], as_);
      assert after[t] == Distinct(value + list);
      assert Extends(tracked, after) by {
        DistinctKeepsPrefix(value, list);
      }
      assert changed <==> |after[t]| > |value|;
      assert changed <==> exists x :: x in Get(tracked, as_) && x !in value by {
        DistinctGrows(value, list);
        if as_ == t {
          assert list == value;
        }
      }
      if Grew(tracked, after) {
        var k :| k in after && |after[k]| > |Get(tracked, k)|;
        assert k == t;
      }
    }
  }

  /** A second identical call changes nothing and reports no change. */
  lemma AddSpecificTypeTwice(u: Universe, t: TypeId, as_: TypeId, tracked: Tracked)
    requires ValidTracked(tracked)
    ensures var once := AddSpecificType(u, t, as_, tracked).1;
            AddSpecificType(u, t, as_, once) == (false, once)
  {
    var once := AddSpecificType(u, t, as_, tracked).1;
    AddSpecificTypeExtends(u, t, as_, tracked);
    if !u.isAbstract(t) {
      var value := once[t];
      var list := Get(once, as_);
      assert as_ != t ==> list == Get(tracked, as_);
      DistinctKnown(value, list);
      assert once[t := value] == once;
    }
  }

  // ---------------------------------------------------------------------
  // AddTypeToTracker
  // ---------------------------------------------------------------------

  /** The type a type is tracked as: the requested one when it is assignable
      from the type, the type itself otherwise. */
  function TrackedAsType(u: Universe, t: TypeId, trackedAs: Option<TypeId>): (r: TypeId)
    ensures r == t || (trackedAs == Some(r) && u.assignableFrom(r, t))
    ensures trackedAs.Some? && u.assignableFrom(trackedAs.value, t) ==> r == trackedAs.value
  {
    if trackedAs.Some? && u.assignableFrom(trackedAs.value, t) then trackedAs.value else t
  }

  /** The loop over the subtypes: only those assignable to the tracked-as
      type are added; `updated` collects whether any add changed a list. */
  function AddSubtypes(u: Universe, subtypes: seq<TypeId>, as_: TypeId, tracked: Tracked, updated: bool): (r: (bool, Tracked))
    ensures updated ==> r.0
  {
    if |subtypes| == 0 then (updated, tracked)
    else if u.assignableFrom(as_, subtypes[0]) then
      var (changed, tracked) := AddSpecificType(u, subtypes[0], as_, tracked);
      AddSubtypes(u, subtypes[1..], as_, tracked, updated || changed)
    else AddSubtypes(u, subtypes[1..], as_, tracked, updated)
  }

  /** `AddTypeToTracker(type, trackedAs, subtypes)`. */
  function AddTypeToTracker(u: Universe, reg: Registry, t: TypeId, trackedAs: Option<TypeId>, subtypes: seq<TypeId>)
    : (r: Result<Registry, TrackError>)
    ensures r.Failure? <==> !u.isEntity(t) && !u.isComponent(t)
    ensures r.Success? ==> r.value.allTypes == reg.allTypes
    ensures r.Success? && u.isEntity(t) ==>
              && r.value.componentTypes == reg.componentTypes && r.value.storedComponents == reg.storedComponents
              && r.value.storedEntities == reg.storedEntities + {t}
    ensures r.Success? && !u.isEntity(t) ==>
              && r.value.entityTypes == reg.entityTypes && r.value.storedEntities == reg.storedEntities
              && r.value.storedComponents == reg.storedComponents + {t}
    ensures r.Success? ==> r.value.version == reg.version || r.value.version == reg.version + 1
  {
    var as_ := TrackedAsType(u, t, trackedAs);
    if !u.isEntity(t) && !u.isComponent(t) then Failure(NotTrackable(t))
    else
      var entity := u.isEntity(t);
      var tracked := if entity then reg.entityTypes else reg.componentTypes;
      var (updated, tracked) := AddSpecificType(u, t, as_, tracked);
      var (updated, tracked) := AddSubtypes(u, subtypes, as_, tracked, updated);
      var version := if updated then reg.version + 1 else reg.version;
      if entity then
        Success(reg.(storedEntities := reg.storedEntities + {t}, entityTypes := tracked, version := version))
      else
        Success(reg.(storedComponents := reg.storedComponents + {t}, componentTypes := tracked, version := version))
  }

  /** `AddTypeToTracker(type, trackedAs, inheritAll)`: the subtypes are all
      subclasses of the type when `inheritAll` is set, none otherwise. */
  function AddTypeToTrackerInherit(u: Universe, reg: Registry, t: TypeId, trackedAs: Option<TypeId>, inheritAll: bool)
    : (r: Result<Registry, TrackError>)
    ensures r.Failure? <==> !u.isEntity(t) && !u.isComponent(t)
    ensures r.Success? ==> r.value.allTypes == reg.allTypes
  {
    AddTypeToTracker(u, reg, t, trackedAs, if inheritAll then GetSubclasses(u, reg, t).0 else [])
  }

  /** The subtypes an add may touch: those assignable to the tracked-as type. */
  function Eligible(u: Universe, as_: TypeId, subtypes: seq<TypeId>): set<TypeId> {
    set k | k in subtypes && u.assignableFrom(as_, k)
  }

  /** Only lists of keys in `allowed` changed, and none of an abstract type. */
  ghost predicate TouchesOnly(u: Universe, before: Tracked, after: Tracked, allowed: set<TypeId>) {
    forall k :: k in after && (k !in before || after[k] != before[k]) ==> !u.isAbstract(k) && k in allowed
  }

  /** One add touches only its own type. */
  lemma AddSpecificTypeTouches(u: Universe, t: TypeId, as_: TypeId, tracked: Tracked)
    ensures TouchesOnly(u, tracked, AddSpecificType(u, t, as_, tracked).1, {t})
  {
  }

  lemma TouchesTrans(u: Universe, a: Tracked, b: Tracked, c: Tracked, ab: set<TypeId>, bc: set<TypeId>)
    requires a.Keys <= b.Keys && TouchesOnly(u, a, b, ab) && TouchesOnly(u, b, c, bc)
    ensures TouchesOnly(u, a, c, ab + bc)
  {
  }

  lemma {:induction false} AddSubtypesExtends(u: Universe, subtypes: seq<TypeId>, as_: TypeId, tracked: Tracked, updated: bool)
    requires ValidTracked(tracked)
    ensures var r := AddSubtypes(u, subtypes, as_, tracked, updated);
            && ValidTracked(r.1)
            && Extends(tracked, r.1)
            && (r.0 <==> updated || Grew(tracked, r.1))
            && TouchesOnly(u, tracked, r.1, Eligible(u, as_, subtypes))
  {
    if |subtypes| == 0 {
    } else {
      var s, rest := subtypes[0], subtypes[1..];
      assert Eligible(u, as_, rest) <= Eligible(u, as_, subtypes);
      if u.assignableFrom(as_, s) {
        var step := AddSpecificType(u, s, as_, tracked);
        AddSpecificTypeExtends(u, s, as_, tracked);
        AddSpecificTypeTouches(u, s, as_, tracked);
        AddSubtypesExtends(u, rest, as_, step.1, updated || step.0);
        assert {s} + Eligible(u, as_, rest) <= Eligible(u, as_, subtypes);
        SubtypesStep(u, tracked, step.1, AddSubtypes(u, rest, as_, step.1, updated || step.0),
                     updated, step.0, {s}, Eligible(u, as_, rest), Eligible(u, as_, subtypes));
      } else {
        AddSubtypesExtends(u, rest, as_, tracked, updated);
      }
    }
  }

  /** Chains one add with the adds of the remaining subtypes. */
  lemma SubtypesStep(u: Universe, tracked: Tracked, mid: Tracked, r: (bool, Tracked), updated: bool, changed: bool,
                     first: set<TypeId>, later: set<TypeId>, all: set<TypeId>)
    requires ValidTracked(r.1)
    requires Extends(tracked, mid) && (changed <==> Grew(tracked, mid)) && TouchesOnly(u, tracked, mid, first)
    requires Extends(mid, r.1) && (r.0 <==> updated || changed || Grew(mid, r.1)) && TouchesOnly(u, mid, r.1, later)
    requires first + later <= all
    ensures Extends(tracked, r.1) && (r.0 <==> updated || Grew(tracked, r.1)) && TouchesOnly(u, tracked, r.1, all)
  {
    ExtendsTrans(tracked, mid, r.1);
    TouchesTrans(u, tracked, mid, r.1, first, later);
  }

  lemma ExtendsTrans(a: Tracked, b: Tracked, c: Tracked)
    requires Extends(a, b) && Extends(b, c)
    ensures Extends(a, c)
    ensures Grew(a, c) <==> Grew(a, b) || Grew(b, c)
  {
    if Grew(a, b) {
      var k :| k in b && |b[k]| > |Get(a, k)|;
      assert |c[k]| >= |b[k]|;
    }
    if Grew(b, c) {
      var k :| k in c && |c[k]| > |Get(b, k)|;
      assert |Get(b, k)| >= |Get(a, k)|;
    }
  }

  /** `AddTypeToTracker` on valid tables: the table of the type's kind only
      has lists extended, only for the type itself and for the subtypes
      assignable to the tracked-as type, never for an abstract type; and the
      version rises by one exactly when some list grew. */
  lemma AddTypeToTrackerVersion(u: Universe, reg: Registry, t: TypeId, trackedAs: Option<TypeId>, subtypes: seq<TypeId>)
    requires ValidTracked(reg.entityTypes) && ValidTracked(reg.componentTypes)
    requires AddTypeToTracker(u, reg, t, trackedAs, subtypes).Success?
    ensures var r := AddTypeToTracker(u, reg, t, trackedAs, subtypes).value;
            var before := if u.isEntity(t) then reg.entityTypes else reg.componentTypes;
            var after := if u.isEntity(t) then r.entityTypes else r.componentTypes;
            && ValidTracked(after)
            && Extends(before, after)
            && TouchesOnly(u, before, after, {t} + Eligible(u, TrackedAsType(u, t, trackedAs), subtypes))
            && (r.version == reg.version + 1 <==> Grew(before, after))
            && (r.version == reg.version <==> !Grew(before, after))
  {
    var as_ := TrackedAsType(u, t, trackedAs);
    var before := if u.isEntity(t) then reg.entityTypes else reg.componentTypes;
    var (changed, mid) := AddSpecificType(u, t, as_, before);
    var (updated, after) := AddSubtypes(u, subtypes, as_, mid, changed);
    AddSpecificTypeExtends(u, t, as_, before);
    AddSpecificTypeTouches(u, t, as_, before);
    AddSubtypesExtends(u, subtypes, as_, mid, changed);
    ExtendsTrans(before, mid, after);
    TouchesTrans(u, before, mid, after, {t}, Eligible(u, as_, subtypes));
  }

  /** The list of `s` holds every type of `list`. */
  ghost predicate Covers(after: Tracked, s: TypeId, list: seq<TypeId>) {
    s in after && forall x :: x in list ==> x in after[s]
  }

  lemma GetExtends(a: Tracked, b: Tracked, k: TypeId)
    requires Extends(a, b)
    ensures Get(a, k) <= Get(b, k)
  {
  }

  lemma CoversExtends(a: Tracked, b: Tracked, s: TypeId, list: seq<TypeId>)
    requires Covers(a, s, list) && Extends(a, b)
    ensures Covers(b, s, list)
  {
    assert a[s] <= b[s];
  }

  /** The subtypes loop adds the tracked-as type's list to the list of
      every subtype assignable to it that is not abstract. */
  lemma {:induction false} AddSubtypesTracks(u: Universe, subtypes: seq<TypeId>, as_: TypeId, tracked: Tracked, updated: bool)
    requires ValidTracked(tracked)
    ensures var after := AddSubtypes(u, subtypes, as_, tracked, updated).1;
            forall s :: s in subtypes && u.assignableFrom(as_, s) && !u.isAbstract(s) ==> Covers(after, s, Get(tracked, as_))
  {
    if |subtypes| > 0 {
      var s0, rest := subtypes[0], subtypes[1..];
      var after := AddSubtypes(u, subtypes, as_, tracked, updated).1;
      if u.assignableFrom(as_, s0) {
        var step := AddSpecificType(u, s0, as_, tracked);
        AddSpecificTypeExtends(u, s0, as_, tracked);
        AddSubtypesTracks(u, rest, as_, step.1, updated || step.0);
        AddSubtypesExtends(u, rest, as_, step.1, updated || step.0);
        GetExtends(tracked, step.1, as_);
        if !u.isAbstract(s0) {
          CoversExtends(step.1, after, s0, Get(tracked, as_));
        }
      } else {
        AddSubtypesTracks(u, rest, as_, tracked, updated);
      }
    }
  }

  /** `AddTypeToTracker` does what it is for: the type itself, and every
      given subtype assignable to the tracked-as type, unless abstract, ends
      up tracked as everything the tracked-as type was tracked as. With
      `AddTypeToTrackerVersion`, which says no other list changes, this
      bounds the tables from below and says which lists change; it does not
      bound a changed list from above. */
  lemma AddTypeToTrackerTracks(u: Universe, reg: Registry, t: TypeId, trackedAs: Option<TypeId>, subtypes: seq<TypeId>)
    requires ValidTracked(reg.entityTypes) && ValidTracked(reg.componentTypes)
    requires AddTypeToTracker(u, reg, t, trackedAs, subtypes).Success?
    ensures var r := AddTypeToTracker(u, reg, t, trackedAs, subtypes).value;
            var as_ := TrackedAsType(u, t, trackedAs);
            var before := if u.isEntity(t) then reg.entityTypes else reg.componentTypes;
            var after := if u.isEntity(t) then r.entityTypes else r.componentTypes;
            forall s :: (s == t || s in Eligible(u, as_, subtypes)) && !u.isAbstract(s) ==> Covers(after, s, Get(before, as_))
  {
    var as_ := TrackedAsType(u, t, trackedAs);
    var before := if u.isEntity(t) then reg.entityTypes else reg.componentTypes;
    var mid := AddSpecificType(u, t, as_, before);
    var after := AddSubtypes(u, subtypes, as_, mid.1, mid.0).1;
    AddSpecificTypeExtends(u, t, as_, before);
    AddSubtypesTracks(u, subtypes, as_, mid.1, mid.0);
    AddSubtypesExtends(u, subtypes, as_, mid.1, mid.0);
    GetExtends(before, mid.1, as_);
    if !u.isAbstract(t) {
      CoversExtends(mid.1, after, t, Get(before, as_));
    }
  }

  /** The subclasses of `t` in the type list the tracker scans that are
      assignable to the tracked-as type `as_`. */
  function InheritedTypes(u: Universe, reg: Registry, t: TypeId, as_: TypeId): (r: set<TypeId>)
    ensures forall s :: s in r ==> s != t && u.assignableFrom(t, s) && u.assignableFrom(as_, s)
  {
    var all := if reg.allTypes.Some? then reg.allTypes.value else u.types;
    set s | s in all && s != t && u.assignableFrom(t, s) && u.assignableFrom(as_, s)
  }

  /** `AddTypeToTracker(type, trackedAs, inheritAll)`: with `inheritAll`,
      all subtypes of the type are tracked under it. Every non-abstract
      subclass assignable to the tracked-as type gets the tracked-as type's
      list, as the type itself does; and only those lists change. */
  lemma AddTypeToTrackerInheritTracks(u: Universe, reg: Registry, t: TypeId, trackedAs: Option<TypeId>, inheritAll: bool)
    requires ValidTracked(reg.entityTypes) && ValidTracked(reg.componentTypes)
    requires AddTypeToTrackerInherit(u, reg, t, trackedAs, inheritAll).Success?
    ensures var r := AddTypeToTrackerInherit(u, reg, t, trackedAs, inheritAll).value;
            var as_ := TrackedAsType(u, t, trackedAs);
            var before := if u.isEntity(t) then reg.entityTypes else reg.componentTypes;
            var after := if u.isEntity(t) then r.entityTypes else r.componentTypes;
            var inherited := if inheritAll then InheritedTypes(u, reg, t, as_) else {};
            && (forall s :: (s == t || s in inherited) && !u.isAbstract(s) ==> Covers(after, s, Get(before, as_)))
            && TouchesOnly(u, before, after, {t} + inherited)
            && Extends(before, after)
  {
    var as_ := TrackedAsType(u, t, trackedAs);
    var subs := if inheritAll then GetSubclasses(u, reg, t).0 else [];
    assert AddTypeToTrackerInherit(u, reg, t, trackedAs, inheritAll) == AddTypeToTracker(u, reg, t, trackedAs, subs);
    AddTypeToTrackerTracks(u, reg, t, trackedAs, subs);
    AddTypeToTrackerVersion(u, reg, t, trackedAs, subs);
    assert Eligible(u, as_, subs) == if inheritAll then InheritedTypes(u, reg, t, as_) else {};
  }

  // ---------------------------------------------------------------------
  // Initialize
  // ---------------------------------------------------------------------

  /** The `[TrackedAs]` loop: every attribute of every type, in order. */
  function TrackedAsPass(u: Universe, types: seq<TypeId>, reg: Registry): Result<Registry, TrackError> {
    if |types| == 0 then Success(reg)
    else
      var reg :- AttributesPass(u, types[0], u.attributes(types[0]), reg);
      TrackedAsPass(u, types[1..], reg)
  }

  function AttributesPass(u: Universe, t: TypeId, attrs: seq<(TypeId, bool)>, reg: Registry): Result<Registry, TrackError> {
    if |attrs| == 0 then Success(reg)
    else
      var reg :- AddTypeToTrackerInherit(u, reg, t, Some(attrs[0].0), attrs[0].1);
      AttributesPass(u, t, attrs[1..], reg)
  }

  /** A type that cannot be tracked but carries a `[TrackedAs]` attribute. */
  predicate Untrackable(u: Universe, t: TypeId) {
    |u.attributes(t)| > 0 && !u.isEntity(t) && !u.isComponent(t)
  }

  /** `Initialize()` after the game's own initialisation has produced `reg`:
      the type cache is filled for the `[TrackedAs]` pass, then the version
      is put back and the cache dropped. */
  function Initialize(u: Universe, reg: Registry): (r: Result<Registry, TrackError>)
    ensures r.Success? ==> r.value.version == reg.version && r.value.allTypes.None?
  {
    var pass :- TrackedAsPass(u, u.types, reg.(allTypes := Some(u.types)));
    Success(pass.(version := reg.version, allTypes := None))
  }

  lemma {:induction false} AttributesPassFails(u: Universe, t: TypeId, attrs: seq<(TypeId, bool)>, reg: Registry)
    ensures AttributesPass(u, t, attrs, reg).Failure? <==> |attrs| > 0 && !u.isEntity(t) && !u.isComponent(t)
  {
    if |attrs| > 0 && (u.isEntity(t) || u.isComponent(t)) {
      var next := AddTypeToTrackerInherit(u, reg, t, Some(attrs[0].0), attrs[0].1);
      AttributesPassFails(u, t, attrs[1..], next.value);
    }
  }

  lemma {:induction false} TrackedAsPassFails(u: Universe, types: seq<TypeId>, reg: Registry)
    ensures TrackedAsPass(u, types, reg).Failure? <==> exists i :: 0 <= i < |types| && Untrackable(u, types[i])
  {
    if |types| > 0 {
      AttributesPassFails(u, types[0], u.attributes(types[0]), reg);
      var next := AttributesPass(u, types[0], u.attributes(types[0]), reg);
      if next.Success? {
        TrackedAsPassFails(u, types[1..], next.value);
        if exists i :: 0 <= i < |types| && Untrackable(u, types[i]) {
          var i :| 0 <= i < |types| && Untrackable(u, types[i]);
          assert i > 0 && types[1..][i - 1] == types[i];
        }
        if exists i :: 0 <= i < |types[1..]| && Untrackable(u, types[1..][i]) {
          var i :| 0 <= i < |types[1..]| && Untrackable(u, types[1..][i]);
          assert types[i + 1] == types[1..][i];
        }
      }
    }
  }

  /** `Initialize` throws exactly when some type carries `[TrackedAs]`
      without deriving from `Entity` or `Component`. */
  lemma InitializeFails(u: Universe, reg: Registry)
    ensures Initialize(u, reg).Failure? <==> exists i :: 0 <= i < |u.types| && Untrackable(u, u.types[i])
  {
    TrackedAsPassFails(u, u.types, reg.(allTypes := Some(u.types)));
  }

  // ---------------------------------------------------------------------
  // Refresh
  // ---------------------------------------------------------------------

  /** An entity or component object: its identity and its runtime type. */
  datatype Obj = Obj(id: nat, kind: TypeId)

  /** An entity of the scene with its components. */
  datatype SceneEntity = SceneEntity(self: Obj, components: seq<Obj>)

  /** A scene's tracker: the version it was refreshed at and its lists. */
  datatype SceneTracker = SceneTracker(currentVersion: int, entities: map<TypeId, seq<Obj>>, components: map<TypeId, seq<Obj>>)

  /** `KeyNotFoundException` for a type with no list in the scene's tracker. */
  datatype RefreshError = KeyNotFound(t: TypeId)

  /** Every stored type gets an empty list unless it has one. */
  function WithLists(m: map<TypeId, seq<Obj>>, stored: set<TypeId>): (r: map<TypeId, seq<Obj>>)
    ensures r.Keys == m.Keys + stored
    ensures forall k :: k in m ==> r[k] == m[k]
    ensures forall k :: k in stored && k !in m ==> r[k] == []
  {
    map k | k in m.Keys + stored :: if k in m then m[k] else []
  }

  /** Adds `o` to the list of every type in `keys`. */
  function AppendTo(m: map<TypeId, seq<Obj>>, keys: seq<TypeId>, o: Obj): (r: Result<map<TypeId, seq<Obj>>, RefreshError>)
    ensures r.Success? ==> r.value.Keys == m.Keys
  {
    if |keys| == 0 then Success(m)
    else if keys[0] !in m then Failure(KeyNotFound(keys[0]))
    else AppendTo(m[keys[0] := m[keys[0]] + [o]], keys[1..], o)
  }

  /** One entity or component: skipped when its type is not tracked or when
      it is already in its own type's list; otherwise added to the list of
      every type it is tracked as. */
  function TrackObj(tracked: Tracked, m: map<TypeId, seq<Obj>>, o: Obj): (r: Result<map<TypeId, seq<Obj>>, RefreshError>)
    ensures o.kind !in tracked ==> r == Success(m)
    ensures o.kind in m && o in m[o.kind] ==> r == Success(m)
  {
    if o.kind !in tracked then Success(m)
    else if o.kind !in m then Failure(KeyNotFound(o.kind))
    else if o in m[o.kind] then Success(m)
    else AppendTo(m, tracked[o.kind], o)
  }

  function TrackAll(tracked: Tracked, m: map<TypeId, seq<Obj>>, os: seq<Obj>): Result<map<TypeId, seq<Obj>>, RefreshError> {
    if |os| == 0 then Success(m)
    else
      var m :- TrackObj(tracked, m, os[0]);
      TrackAll(tracked, m, os[1..])
  }

  /** The loop over the scene's entities: each entity's components first,
      then the entity itself. */
  function TrackEntities(reg: Registry, es: seq<SceneEntity>, t: SceneTracker): Result<SceneTracker, RefreshError> {
    if |es| == 0 then Success(t)
    else
      var components :- TrackAll(reg.componentTypes, t.components, es[0].components);
      var entities :- TrackObj(reg.entityTypes, t.entities, es[0].self);
      TrackEntities(reg, es[1..], t.(components := components, entities := entities))
  }

  /** `Refresh(scene, force)`. */
  function Refresh(reg: Registry, t: SceneTracker, es: seq<SceneEntity>, force: bool): (r: Result<SceneTracker, RefreshError>)
    ensures t.currentVersion >= reg.version && !force ==> r == Success(t)
  {
    if t.currentVersion >= reg.version && !force then Success(t)
    else
      TrackEntities(reg, es, SceneTracker(reg.version, WithLists(t.entities, reg.storedEntities),
                                          WithLists(t.components, reg.storedComponents)))
  }

  /** `after` has the same lists as `before` with objects appended, each of
      a tracked type and appended to a list of a type it is tracked as. */
  ghost predicate OnlyAppended(tracked: Tracked, before: map<TypeId, seq<Obj>>, after: map<TypeId, seq<Obj>>) {
    && after.Keys == before.Keys
    && forall k :: k in after ==>
         && before[k] <= after[k]
         && forall j :: |before[k]| <= j < |after[k]| ==>
              after[k][j].kind in tracked && k in tracked[after[k][j].kind]
  }

  lemma OnlyAppendedTrans(tracked: Tracked, a: map<TypeId, seq<Obj>>, b: map<TypeId, seq<Obj>>, c: map<TypeId, seq<Obj>>)
    requires OnlyAppended(tracked, a, b) && OnlyAppended(tracked, b, c)
    ensures OnlyAppended(tracked, a, c)
  {
    forall k, j | k in c && |a[k]| <= j < |c[k]|
      ensures c[k][j].kind in tracked && k in tracked[c[k][j].kind]
    {
      if j < |b[k]| {
        assert c[k][j] == b[k][j];
      }
    }
  }

  lemma {:induction false} AppendToAppends(tracked: Tracked, m: map<TypeId, seq<Obj>>, keys: seq<TypeId>, o: Obj)
    requires AppendTo(m, keys, o).Success?
    requires o.kind in tracked && forall k :: k in keys ==> k in tracked[o.kind]
    ensures OnlyAppended(tracked, m, AppendTo(m, keys, o).value)
  {
    if |keys| > 0 {
      var next := m[keys[0] := m[keys[0]] + [o]];
      assert OnlyAppended(tracked, m, next);
      assert forall k :: k in keys[1..] ==> k in keys;
      AppendToAppends(tracked, next, keys[1..], o);
      OnlyAppendedTrans(tracked, m, next, AppendTo(m, keys, o).value);
    } else {
      assert OnlyAppended(tracked, m, m);
    }
  }

  lemma {:induction false} TrackAllAppends(tracked: Tracked, m: map<TypeId, seq<Obj>>, os: seq<Obj>)
    requires TrackAll(tracked, m, os).Success?
    ensures OnlyAppended(tracked, m, TrackAll(tracked, m, os).value)
  {
    if |os| == 0 {
      assert OnlyAppended(tracked, m, m);
    } else {
      var next := TrackObj(tracked, m, os[0]).value;
      TrackObjAppends(tracked, m, os[0]);
      TrackAllAppends(tracked, next, os[1..]);
      OnlyAppendedTrans(tracked, m, next, TrackAll(tracked, m, os).value);
    }
  }

  lemma TrackObjAppends(tracked: Tracked, m: map<TypeId, seq<Obj>>, o: Obj)
    requires TrackObj(tracked, m, o).Success?
    ensures OnlyAppended(tracked, m, TrackObj(tracked, m, o).value)
  {
    if o.kind in tracked && o.kind in m && o !in m[o.kind] {
      AppendToAppends(tracked, m, tracked[o.kind], o);
    } else {
      assert OnlyAppended(tracked, m, m);
    }
  }

  lemma {:induction false} TrackEntitiesAppends(reg: Registry, es: seq<SceneEntity>, t: SceneTracker)
    requires TrackEntities(reg, es, t).Success?
    ensures var r := TrackEntities(reg, es, t).value;
            && r.currentVersion == t.currentVersion
            && OnlyAppended(reg.entityTypes, t.entities, r.entities)
            && OnlyAppended(reg.componentTypes, t.components, r.components)
  {
    if |es| == 0 {
      assert OnlyAppended(reg.entityTypes, t.entities, t.entities);
      assert OnlyAppended(reg.componentTypes, t.components, t.components);
    } else {
      var components := TrackAll(reg.componentTypes, t.components, es[0].components).value;
      var entities := TrackObj(reg.entityTypes, t.entities, es[0].self).value;
      var next := t.(components := components, entities := entities);
      TrackAllAppends(reg.componentTypes, t.components, es[0].components);
      TrackObjAppends(reg.entityTypes, t.entities, es[0].self);
      TrackEntitiesAppends(reg, es[1..], next);
      var r := TrackEntities(reg, es, t).value;
      OnlyAppendedTrans(reg.entityTypes, t.entities, entities, r.entities);
      OnlyAppendedTrans(reg.componentTypes, t.components, components, r.components);
    }
  }

  /** A refresh that goes through takes the global version, gives every
      stored type a list, keeps every list it had and only appends objects
      of tracked types to the lists of the types they are tracked as. */
  lemma RefreshAppends(reg: Registry, t: SceneTracker, es: seq<SceneEntity>, force: bool)
    requires !(t.currentVersion >= reg.version && !force)
    requires Refresh(reg, t, es, force).Success?
    ensures var r := Refresh(reg, t, es, force).value;
            && r.currentVersion == reg.version
            && reg.storedEntities <= r.entities.Keys && reg.storedComponents <= r.components.Keys
            && (forall k :: k in t.entities ==> k in r.entities && t.entities[k] <= r.entities[k])
            && (forall k :: k in t.components ==> k in r.components && t.components[k] <= r.components[k])
            && OnlyAppended(reg.entityTypes, WithLists(t.entities, reg.storedEntities), r.entities)
            && OnlyAppended(reg.componentTypes, WithLists(t.components, reg.storedComponents), r.components)
  {
    var start := SceneTracker(reg.version, WithLists(t.entities, reg.storedEntities), WithLists(t.components, reg.storedComponents));
    TrackEntitiesAppends(reg, es, start);
  }

  /** `o` is where `Refresh` puts it: if its type is tracked, its own
      type has a list, and either `o` was already in that list or it is in
      the list of every type its type is tracked as. */
  ghost predicate Listed(tracked: Tracked, m: map<TypeId, seq<Obj>>, o: Obj) {
    o.kind in tracked ==>
      && o.kind in m
      && (o in m[o.kind] || forall k :: k in tracked[o.kind] ==> k in m && o in m[k])
  }

  lemma ListedMono(tracked: Tracked, a: map<TypeId, seq<Obj>>, b: map<TypeId, seq<Obj>>, o: Obj)
    requires Listed(tracked, a, o) && OnlyAppended(tracked, a, b)
    ensures Listed(tracked, b, o)
  {
    if o.kind in tracked {
      assert a[o.kind] <= b[o.kind];
      if o !in a[o.kind] {
        forall k | k in tracked[o.kind]
          ensures k in b && o in b[k]
        {
          assert k in a && a[k] <= b[k];
        }
      }
    }
  }

  /** `AppendTo` puts `o` at the end of every list it names. */
  lemma {:induction false} AppendToAdds(m: map<TypeId, seq<Obj>>, keys: seq<TypeId>, o: Obj)
    requires AppendTo(m, keys, o).Success?
    ensures forall k :: k in keys ==> k in m && o in AppendTo(m, keys, o).value[k]
    ensures forall k :: k in m ==> m[k] <= AppendTo(m, keys, o).value[k]
  {
    if |keys| > 0 {
      var next := m[keys[0] := m[keys[0]] + [o]];
      AppendToAdds(next, keys[1..], o);
      var r := AppendTo(m, keys, o).value;
      assert o in next[keys[0]];
      assert next[keys[0]] <= r[keys[0]];
      assert forall k :: k in keys ==> k == keys[0] || k in keys[1..];
    }
  }

  /** `TrackObj` never leaves a tracked object out: on success it is listed. */
  lemma TrackObjTracks(tracked: Tracked, m: map<TypeId, seq<Obj>>, o: Obj)
    requires TrackObj(tracked, m, o).Success?
    ensures Listed(tracked, TrackObj(tracked, m, o).value, o)
  {
    if o.kind in tracked && o !in m[o.kind] {
      AppendToAdds(m, tracked[o.kind], o);
    }
  }

  /** Every object of the list is listed. */
  ghost predicate AllListed(tracked: Tracked, m: map<TypeId, seq<Obj>>, os: seq<Obj>) {
    forall o :: o in os ==> Listed(tracked, m, o)
  }

  lemma {:induction false} TrackAllTracks(tracked: Tracked, m: map<TypeId, seq<Obj>>, os: seq<Obj>)
    requires TrackAll(tracked, m, os).Success?
    ensures AllListed(tracked, TrackAll(tracked, m, os).value, os)
  {
    if |os| > 0 {
      var next := TrackObj(tracked, m, os[0]).value;
      var r := TrackAll(tracked, m, os).value;
      TrackObjTracks(tracked, m, os[0]);
      TrackAllTracks(tracked, next, os[1..]);
      TrackAllAppends(tracked, next, os[1..]);
      ListedMono(tracked, next, r, os[0]);
      assert forall o :: o in os ==> o == os[0] || o in os[1..];
    }
  }

  /** Every entity of the scene and every component of each is listed. */
  ghost predicate SceneListed(reg: Registry, t: SceneTracker, es: seq<SceneEntity>) {
    forall e :: e in es ==>
      Listed(reg.entityTypes, t.entities, e.self) && AllListed(reg.componentTypes, t.components, e.components)
  }

  lemma SceneListedMono(reg: Registry, a: SceneTracker, b: SceneTracker, es: seq<SceneEntity>)
    requires SceneListed(reg, a, es)
    requires OnlyAppended(reg.entityTypes, a.entities, b.entities)
    requires OnlyAppended(reg.componentTypes, a.components, b.components)
    ensures SceneListed(reg, b, es)
  {
    forall e | e in es
      ensures Listed(reg.entityTypes, b.entities, e.self) && AllListed(reg.componentTypes, b.components, e.components)
    {
      ListedMono(reg.entityTypes, a.entities, b.entities, e.self);
      forall c | c in e.components
        ensures Listed(reg.componentTypes, b.components, c)
      {
        ListedMono(reg.componentTypes, a.components, b.components, c);
      }
    }
  }

  lemma {:induction false} TrackEntitiesTracks(reg: Registry, es: seq<SceneEntity>, t: SceneTracker)
    requires TrackEntities(reg, es, t).Success?
    ensures SceneListed(reg, TrackEntities(reg, es, t).value, es)
  {
    if |es| > 0 {
      var components := TrackAll(reg.componentTypes, t.components, es[0].components).value;
      var entities := TrackObj(reg.entityTypes, t.entities, es[0].self).value;
      var next := t.(components := components, entities := entities);
      var r := TrackEntities(reg, es, t).value;
      TrackAllTracks(reg.componentTypes, t.components, es[0].components);
      TrackObjTracks(reg.entityTypes, t.entities, es[0].self);
      assert SceneListed(reg, next, [es[0]]);
      TrackEntitiesTracks(reg, es[1..], next);
      TrackEntitiesAppends(reg, es[1..], next);
      SceneListedMono(reg, next, r, [es[0]]);
      assert forall e :: e in es ==> e == es[0] || e in es[1..];
    }
  }

  /** A refresh that goes through leaves no entity or component of the
      scene out: each one of a tracked type is in the list of every type it
      is tracked as, unless it already was in its own type's list. */
  lemma RefreshTracks(reg: Registry, t: SceneTracker, es: seq<SceneEntity>, force: bool)
    requires !(t.currentVersion >= reg.version && !force)
    requires Refresh(reg, t, es, force).Success?
    ensures SceneListed(reg, Refresh(reg, t, es, force).value, es)
  {
    var start := SceneTracker(reg.version, WithLists(t.entities, reg.storedEntities), WithLists(t.components, reg.storedComponents));
    TrackEntitiesTracks(reg, es, start);
  }
}
