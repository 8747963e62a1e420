/**
 Attribute lookups on a map entity: `Has`, which tolerates a missing
 attribute table, and `String`, which treats blank text as absent.

 Source: Celeste.Mod.mm/Patches/EntityData.cs.
 */
module EntityData {
  import opened Wrappers
  import opened Numbers
  import opened Text

  /** An attribute value as the map loader stores it: a string, an integer,
      a boolean, null, or any other object shown by its `ToString()` text. */
  datatype Value = Null | Str(s: string) | Integer(i: int32) | Flag(b: bool) | Other(shown: string)

  /** An entity: its name and its attribute table (`None` when `Values` is null). */
  datatype Entity = Entity(name: string, values: Option<map<string, Value>>)

  /** `value?.ToString()`. The current culture formats integers; the model
      assumes it writes them as the invariant culture does. */
  function Shown(v: Value): (r: Option<string>)
    ensures r.None? <==> v.Null?
    ensures v.Str? ==> r == Some(v.s)
  {
    match v
    case Null => None
    case Str(s) => Some(s)
    case Integer(i) => Some(Int32ToString(i))
    case Flag(b) => Some(if b then "True" else "False")
    case Other(shown) => Some(shown)
  }

  /** `string.IsNullOrWhiteSpace`. */
  predicate NullOrBlank(s: Option<string>) {
    s.None? || IsBlank(s.value)
  }

  /** `Has(key)`: false without an attribute table, otherwise the table's own
      key lookup. */
  function Has(e: Entity, key: string): (r: bool)
    ensures e.values.None? ==> !r
    ensures e.values.Some? ==> (r <==> key in e.values.value)
  {
    e.values.Some? && key in e.values.value
  }

  /** The text stored under `key` when the table exists, holds the key, and
      its value shows as text that is neither null nor blank. */
  function Stored(e: Entity, key: string): Option<string> {
    if e.values.Some? && key in e.values.value then Shown(e.values.value[key]) else None
  }

  /** `String(key, defaultValue)`. */
  function String(e: Entity, key: string, default: Option<string>): (r: Option<string>)
    ensures !NullOrBlank(Stored(e, key)) ==> r == Stored(e, key)
    ensures NullOrBlank(Stored(e, key)) ==> r == default
  {
    if e.values.Some? && key in e.values.value && !NullOrBlank(Shown(e.values.value[key])) then
      Shown(e.values.value[key])
    else
      default
  }

  /** `String` never yields blank text of its own: a blank or null result
      can only be the default coming back. */
  lemma StringNeverBlank(e: Entity, key: string, default: Option<string>)
    ensures NullOrBlank(String(e, key, default)) ==> String(e, key, default) == default
  {
  }

  /** Whatever `String` returns other than the default comes from an
      attribute that `Has` reports. */
  lemma StringImpliesHas(e: Entity, key: string, default: Option<string>)
    ensures String(e, key, default) != default ==> Has(e, key)
    ensures e.values.None? ==> String(e, key, default) == default
  {
  }

  /** A stored string attribute with a non-blank text comes back unchanged,
      and a blank one is replaced by the default. */
  lemma StringOfText(e: Entity, key: string, s: string, default: Option<string>)
    requires e.values.Some? && key in e.values.value && e.values.value[key] == Str(s)
    ensures !IsBlank(s) ==> String(e, key, default) == Some(s)
    ensures IsBlank(s) ==> String(e, key, default) == default
  {
  }
}
