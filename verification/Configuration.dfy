/**
 The hierarchical configuration: saving only what differs from the defaults, and filling the
 defaults back in. (Writing and reading the saved entries is taken as exact.)
 */
module Configuration {
  import opened Basics

  datatype Value = Scalar(text: string) | List(items: seq<Value>)

  /** One schema entry. Defaults may depend on the operating system. */
  datatype Schema =
    | Field(isList: bool, default: Option<Value>, osDefaults: map<string, Value>)
    | Group(required: map<string, Schema>)

  datatype Config = Leaf(value: Value) | Section(entries: map<string, Config>)

  type Entries = map<string, Config>

  function Lookup(entries: Entries, k: string): Option<Config> {
    if k in entries then Some(entries[k]) else None
  }

  // ---- filling in defaults ----

  /** The default of a field; None where the source finds no entry to use. A list without a plain
      default starts empty, whatever its per-system default. */
  function FieldDefault(s: Schema, os: string): Option<Config>
    requires s.Field?
  {
    if s.isList && s.default.None? then Some(Leaf(List([])))
    else if os in s.osDefaults then Some(Leaf(s.osDefaults[os]))
    else if s.default.Some? then Some(Leaf(s.default.value))
    else None
  }

  /** What stands at a schema entry after filling; None when filling fails. */
  function Fill(s: Schema, c: Option<Config>, os: string): Option<Config>
    decreases s
  {
    match s
    case Field(_, _, _) => if c.Some? then c else FieldDefault(s, os)
    case Group(required) =>
      if c.Some? && c.value.Leaf? then None
      else
        var entries := if c.Some? then c.value.entries else map[];
        if forall k :: k in required ==> Fill(required[k], Lookup(entries, k), os).Some? then
          Some(Section(map k | k in entries.Keys + required.Keys ::
                         if k in required then Fill(required[k], Lookup(entries, k), os).value else entries[k]))
        else None
  }

  // ---- saving what is not default ----

  /** Sections stand where the schema has groups. */
  ghost predicate WellTyped(s: Schema, c: Config)
    decreases s
  {
    s.Group? ==> c.Section? && forall k :: k in s.required && k in c.entries ==> WellTyped(s.required[k], c.entries[k])
  }

  /** What is saved for a schema entry; None when nothing is. */
  function Prune(s: Schema, c: Config, os: string): Option<Config>
    requires WellTyped(s, c)
    decreases s
  {
    match s
    case Field(_, default, osDefaults) =>
      if os in osDefaults then (if c != Leaf(osDefaults[os]) then Some(c) else None)
      else if default.Some? then (if c != Leaf(default.value) then Some(c) else None)
      else None
    case Group(_) =>
      var kept := PruneEntries(s, c.entries, os);
      if kept == map[] then None else Some(Section(kept))
  }

  function PruneEntries(s: Schema, entries: Entries, os: string): Entries
    requires s.Group? && WellTyped(s, Section(entries))
    decreases s, 0
  {
    map k | k in entries && k in s.required && Prune(s.required[k], entries[k], os).Some?
          :: Prune(s.required[k], entries[k], os).value
  }

  // ---- when filling undoes saving ----

  /** A field survives saving and loading: always if it has a plain default; a list without one
      comes back empty unless it was saved because of a per-system default; a field with no
      applicable default is lost. */
  predicate RestorableField(s: Schema, c: Config, os: string)
    requires s.Field?
  {
    if s.default.Some? then true
    else if s.isList then
      if os in s.osDefaults then c != Leaf(s.osDefaults[os]) || c == Leaf(List([])) else c == Leaf(List([]))
    else os in s.osDefaults
  }

  /** Complete, with only schema keys, and every field restorable. */
  ghost predicate Restorable(s: Schema, c: Config, os: string)
    decreases s
  {
    if s.Field? then RestorableField(s, c, os)
    else c.Section? && c.entries.Keys == s.required.Keys
         && forall k :: k in s.required && k in c.entries ==> Restorable(s.required[k], c.entries[k], os)
  }

  /** Keys of a group that are missing from the saved entries fill as if the group were empty. */
  lemma FillMissing(s: Schema, os: string)
    requires s.Group?
    ensures Fill(s, None, os) == Fill(s, Some(Section(map[])), os)
  {
  }

  lemma FillPrunedEntry(s: Schema, entries: Entries, os: string, k: string)
    requires s.Group? && WellTyped(s, Section(entries)) && k in s.required && k in entries
    ensures Lookup(PruneEntries(s, entries, os), k) == Prune(s.required[k], entries[k], os)
  {
  }

  /** Filling defaults into what was saved restores a configuration exactly when it is restorable. */
  lemma {:induction false} FillUndoesPruneIff(s: Schema, c: Config, os: string)
    requires WellTyped(s, c)
    ensures Fill(s, Prune(s, c, os), os) == Some(c) <==> Restorable(s, c, os)
    decreases s
  {
    if s.Group? {
      var kept := PruneEntries(s, c.entries, os);
      FillMissing(s, os);
      assert Fill(s, Prune(s, c, os), os) == Fill(s, Some(Section(kept)), os);
      forall k | k in s.required && k in c.entries
        ensures Fill(s.required[k], Lookup(kept, k), os) == Some(c.entries[k]) <==> Restorable(s.required[k], c.entries[k], os)
      {
        FillPrunedEntry(s, c.entries, os, k);
        FillUndoesPruneIff(s.required[k], c.entries[k], os);
      }
      GroupRestored(s, c.entries, kept, os);
    }
  }

  /** A group is restored exactly when its keys are the schema's and every entry is restored. */
  lemma GroupRestored(s: Schema, entries: Entries, kept: Entries, os: string)
    requires s.Group? && kept.Keys <= s.required.Keys
    ensures Fill(s, Some(Section(kept)), os) == Some(Section(entries))
       <==> entries.Keys == s.required.Keys
            && forall k :: k in s.required && k in entries ==> Fill(s.required[k], Lookup(kept, k), os) == Some(entries[k])
  {
    var filled := Fill(s, Some(Section(kept)), os);
    if filled == Some(Section(entries)) {
      assert entries.Keys == kept.Keys + s.required.Keys;
    }
    if entries.Keys == s.required.Keys
       && forall k :: k in s.required && k in entries ==> Fill(s.required[k], Lookup(kept, k), os) == Some(entries[k]) {
      assert filled.Some? && filled.value.entries == entries;
    }
  }

  /** A field without any default is not saved, and filling it in again fails. */
  lemma FieldWithoutDefaultFails(os: string)
    ensures var s, c := Group(map["k" := Field(false, None, map[])]), Section(map["k" := Leaf(Scalar("x"))]);
            WellTyped(s, c) && Prune(s, c, os) == None && Fill(s, Prune(s, c, os), os) == None
  {
    var field := Field(false, None, map[]);
    var s, entries: Entries := Group(map["k" := field]), map["k" := Leaf(Scalar("x"))];
    assert WellTyped(field, entries["k"]) && Prune(field, entries["k"], os) == None;
    assert PruneEntries(s, entries, os) == map[];
    assert Fill(s.required["k"], Lookup(map[], "k"), os) == None;
  }

  /** A list without a default comes back empty. */
  lemma ListWithoutDefaultIsEmptied(os: string)
    ensures var s, c := Group(map["k" := Field(true, None, map[])]), Section(map["k" := Leaf(List([Scalar("x")]))]);
            WellTyped(s, c) && Fill(s, Prune(s, c, os), os) == Some(Section(map["k" := Leaf(List([]))]))
  {
    var field := Field(true, None, map[]);
    var s, entries: Entries := Group(map["k" := field]), map["k" := Leaf(List([Scalar("x")]))];
    assert WellTyped(field, entries["k"]) && Prune(field, entries["k"], os) == None;
    assert PruneEntries(s, entries, os) == map[];
    var filled: Entries := map["k" := Leaf(List([]))];
    assert Fill(s.required["k"], Lookup(map[], "k"), os) == Some(filled["k"]);
    FillMissing(s, os);
    GroupRestored(s, filled, map[], os);
  }

  /** Every field has a plain default. */
  ghost predicate AllDefaulted(s: Schema)
    decreases s
  {
    if s.Field? then s.default.Some? else forall k :: k in s.required ==> AllDefaulted(s.required[k])
  }

  /** All schema keys are present, and no others. */
  ghost predicate Complete(s: Schema, c: Config)
    decreases s
  {
    s.Group? ==>
      && c.Section? && c.entries.Keys == s.required.Keys
      && forall k :: k in s.required && k in c.entries ==> Complete(s.required[k], c.entries[k])
  }

  lemma {:induction false} CompleteIsWellTyped(s: Schema, c: Config)
    requires Complete(s, c)
    ensures WellTyped(s, c)
    decreases s
  {
    if s.Group? {
      forall k | k in s.required && k in c.entries ensures WellTyped(s.required[k], c.entries[k]) {
        CompleteIsWellTyped(s.required[k], c.entries[k]);
      }
    }
  }

  lemma {:induction false} CompleteIsRestorable(s: Schema, c: Config, os: string)
    requires AllDefaulted(s) && Complete(s, c)
    ensures Restorable(s, c, os)
    decreases s
  {
    if s.Group? {
      forall k | k in s.required && k in c.entries ensures Restorable(s.required[k], c.entries[k], os) {
        CompleteIsRestorable(s.required[k], c.entries[k], os);
      }
    }
  }

  /** When every field has a default, saving and loading restores every complete configuration. */
  lemma SaveLoadRoundTrip(s: Schema, c: Config, os: string)
    requires AllDefaulted(s) && Complete(s, c)
    ensures WellTyped(s, c) && Fill(s, Prune(s, c, os), os) == Some(c)
  {
    CompleteIsWellTyped(s, c);
    CompleteIsRestorable(s, c, os);
    FillUndoesPruneIff(s, c, os);
  }

  // ---- what is saved, and no more ----

  /** Every entry of a schema field is what filling would put there anyway. */
  ghost predicate AtDefaults(s: Schema, c: Config, os: string)
    decreases s
  {
    match s
    case Field(_, _, _) => FieldDefault(s, os) == Some(c)
    case Group(required) =>
      c.Section? && forall k :: k in required && k in c.entries ==> AtDefaults(required[k], c.entries[k], os)
  }

  /** Nothing is saved exactly when every entry equals its default, per-system defaults first. */
  lemma {:induction false} NothingSavedIff(s: Schema, c: Config, os: string)
    requires WellTyped(s, c) && AllDefaulted(s)
    ensures Prune(s, c, os) == None <==> AtDefaults(s, c, os)
    decreases s
  {
    if s.Group? {
      var kept := PruneEntries(s, c.entries, os);
      forall k | k in s.required && k in c.entries
        ensures k !in kept <==> AtDefaults(s.required[k], c.entries[k], os)
      {
        NothingSavedIff(s.required[k], c.entries[k], os);
      }
      assert (forall k :: k in s.required && k in c.entries ==> k !in kept) <==> kept == map[];
    }
  }

  /** Saving a complete configuration saves nothing exactly when filling from nothing yields it. */
  lemma DefaultsSaveNothing(s: Schema, c: Config, os: string)
    requires AllDefaulted(s) && Complete(s, c)
    ensures WellTyped(s, c) && (Prune(s, c, os) == None <==> Fill(s, None, os) == Some(c))
  {
    CompleteIsWellTyped(s, c);
    SaveLoadRoundTrip(s, c, os);
    if Fill(s, None, os) == Some(c) {
      FilledIsAtDefaults(s, c, os);
      NothingSavedIff(s, c, os);
    }
  }

  lemma {:induction false} FilledIsAtDefaults(s: Schema, c: Config, os: string)
    requires Fill(s, None, os) == Some(c)
    ensures AtDefaults(s, c, os)
    decreases s
  {
    if s.Group? {
      forall k | k in s.required && k in c.entries ensures AtDefaults(s.required[k], c.entries[k], os) {
        assert Fill(s.required[k], Lookup(map[], k), os) == Some(c.entries[k]);
        FilledIsAtDefaults(s.required[k], c.entries[k], os);
      }
    }
  }

  /** Every field of p is in c, with the same value. */
  ghost predicate IsPartOf(p: Config, c: Option<Config>)
    decreases p
  {
    c.Some? && (p == c.value || (p.Section? && c.value.Section?
      && forall k :: k in p.entries ==> IsPartOf(p.entries[k], Lookup(c.value.entries, k))))
  }

  /** What is saved is least: whatever fills to the configuration contains it. */
  lemma {:induction false} SavedIsLeast(s: Schema, c: Config, os: string, entries: Option<Config>)
    requires WellTyped(s, c) && AllDefaulted(s) && Fill(s, entries, os) == Some(c)
    ensures Prune(s, c, os).Some? ==> IsPartOf(Prune(s, c, os).value, entries)
    decreases s
  {
    if s.Group? {
      var kept := PruneEntries(s, c.entries, os);
      var given: Entries := if entries.Some? then entries.value.entries else map[];
      forall k | k in kept ensures k in given && IsPartOf(kept[k], Lookup(given, k)) {
        assert Fill(s.required[k], Lookup(given, k), os) == Some(c.entries[k]);
        SavedIsLeast(s.required[k], c.entries[k], os, Lookup(given, k));
      }
    } else {
      NothingSavedIff(s, c, os);
    }
  }

  /** A field at its default is not saved, another value is. */
  lemma OnlyOtherValuesSaved(os: string)
    ensures var s := Group(map["k" := Field(false, Some(Scalar("x")), map[])]);
            && PruneEntries(s, map["k" := Leaf(Scalar("x"))], os) == map[]
            && PruneEntries(s, map["k" := Leaf(Scalar("y"))], os) == map["k" := Leaf(Scalar("y"))]
  {
    var field := Field(false, Some(Scalar("x")), map[]);
    assert "x"[0] != "y"[0];
    assert Prune(field, Leaf(Scalar("x")), os) == None && Prune(field, Leaf(Scalar("y")), os) == Some(Leaf(Scalar("y")));
  }

  /** A per-system default goes before the plain one, both for filling and for saving. */
  lemma SystemDefaultFirst()
    ensures var field := Field(false, Some(Scalar("x")), map["Linux" := Scalar("y")]);
            && Fill(field, None, "Linux") == Some(Leaf(Scalar("y"))) && Fill(field, None, "Darwin") == Some(Leaf(Scalar("x")))
            && Prune(field, Leaf(Scalar("y")), "Linux") == None && Prune(field, Leaf(Scalar("x")), "Linux").Some?
  {
    assert "Linux"[0] != "Darwin"[0] && "x"[0] != "y"[0];
  }

  /** Filling leaves what is there: fields keep their values, and entries that the schema does not
      know stay; only schema entries are added. */
  lemma FillKeepsEntries(s: Schema, entries: Entries, filled: Entries, os: string)
    requires s.Group? && Fill(s, Some(Section(entries)), os) == Some(Section(filled))
    ensures filled.Keys == entries.Keys + s.required.Keys
    ensures forall k :: k in entries && (k !in s.required || s.required[k].Field?) ==> filled[k] == entries[k]
    ensures forall k :: k in s.required && k !in entries && s.required[k].Field?
                        ==> FieldDefault(s.required[k], os) == Some(filled[k])
  {
    forall k | k in s.required ensures Fill(s.required[k], Lookup(entries, k), os) == Some(filled[k]) {
    }
  }

  /** Filling a complete configuration changes nothing. */
  lemma {:induction false} FillIsIdempotent(s: Schema, c: Option<Config>, os: string)
    requires Fill(s, c, os).Some?
    ensures Fill(s, Fill(s, c, os), os) == Fill(s, c, os)
    decreases s
  {
    if s.Group? {
      var entries := if c.Some? then c.value.entries else map[];
      var filled := Fill(s, c, os).value.entries;
      forall k | k in s.required ensures Fill(s.required[k], Lookup(filled, k), os) == Some(filled[k]) {
        FillIsIdempotent(s.required[k], Lookup(entries, k), os);
      }
      var again := Fill(s, Some(Section(filled)), os);
      assert again.Some? && again.value.entries == filled;
    }
  }

  // ---- the procedures ----

  /** One schema entry: descends into groups (creating missing ones), fills missing fields. */
  method AddDefault(entry: Schema, present: Option<Config>, os: string) returns (r: Option<Config>, modified: bool)
    ensures r == Fill(entry, present, os)
    ensures r.Some? ==> (modified <==> r != present)
    decreases entry, 1
  {
    modified := false;
    if entry.Group? {
      var section := present;
      if present.None? {
        modified := true;
        section := Some(Section(map[]));
        FillMissing(entry, os);
      }
      if section.value.Leaf? {
        return None, modified;
      }
      var inner, innerModified := AddDefaults(entry, section.value.entries, os);
      if inner.None? {
        return None, modified;
      }
      return Some(Section(inner.value)), modified || innerModified;
    }
    if present.Some? {
      return present, false;
    }
    return FieldDefault(entry, os), true;
  }

  /** Adds defaults entry by entry; reports whether anything changed. */
  method AddDefaults(s: Schema, entries: Entries, os: string) returns (r: Option<Entries>, modified: bool)
    requires s.Group?
    ensures match Fill(s, Some(Section(entries)), os)
            case None => r.None?
            case Some(c) => r == Some(c.entries)
    ensures r.Some? ==> (modified <==> r.value != entries)
    decreases s, 0
  {
    modified := false;
    var current := entries;
    var todo := s.required.Keys;
    while todo != {}
      invariant todo <= s.required.Keys
      invariant FilledExcept(s, entries, current, todo, os)
      invariant modified <==> current != entries
      decreases todo
    {
      var k :| k in todo;
      var filled, changed := AddDefault(s.required[k], Lookup(current, k), os);
      if filled.None? {
        return None, modified;
      }
      FilledStep(s, entries, current, todo, os, k);
      current := current[k := filled.value];
      modified := modified || changed;
      todo := todo - {k};
    }
    r := Some(current);
    AllFilled(s, entries, current, os);
  }

  /** Every schema entry outside `todo` is filled, everything else is as it was. */
  ghost predicate FilledExcept(s: Schema, entries: Entries, current: Entries, todo: set<string>, os: string)
    requires s.Group?
  {
    && todo <= s.required.Keys && current.Keys == entries.Keys + (s.required.Keys - todo)
    && (forall k :: k in entries && (k !in s.required || k in todo) ==> current[k] == entries[k])
    && (forall k :: k in s.required && k !in todo ==> Fill(s.required[k], Lookup(entries, k), os) == Some(current[k]))
  }

  lemma FilledStep(s: Schema, entries: Entries, current: Entries, todo: set<string>, os: string, k: string)
    requires s.Group? && FilledExcept(s, entries, current, todo, os) && k in todo
    ensures Lookup(current, k) == Lookup(entries, k)
    ensures var filled := Fill(s.required[k], Lookup(current, k), os);
            && (filled.None? ==> Fill(s, Some(Section(entries)), os).None?)
            && (filled.Some? ==> FilledExcept(s, entries, current[k := filled.value], todo - {k}, os))
            && (filled.Some? && current != entries ==> current[k := filled.value] != entries)
  {
    if current != entries {
      assert current.Keys != entries.Keys || exists l :: l in current && current[l] != entries[l];
    }
  }

  lemma AllFilled(s: Schema, entries: Entries, current: Entries, os: string)
    requires s.Group? && FilledExcept(s, entries, current, {}, os)
    ensures Fill(s, Some(Section(entries)), os) == Some(Section(current))
  {
    var filled := Fill(s, Some(Section(entries)), os);
    assert filled.Some? && filled.value.entries == current;
  }

  /** Collects the entries that differ from their defaults. */
  method Traverse(s: Schema, entries: Entries, os: string) returns (result: Entries)
    requires s.Group? && WellTyped(s, Section(entries))
    ensures result == PruneEntries(s, entries, os)
    decreases s
  {
    result := map[];
    var todo := entries.Keys;
    while todo != {}
      invariant todo <= entries.Keys
      invariant forall k :: k in result <==> k in entries && k !in todo && k in s.required && Prune(s.required[k], entries[k], os).Some?
      invariant forall k :: k in result ==> result[k] == Prune(s.required[k], entries[k], os).value
      decreases todo
    {
      var k :| k in todo;
      todo := todo - {k};
      var v := entries[k];
      if k in s.required {
        var entry := s.required[k];
        if entry.Group? {
          var inner := Traverse(entry, v.entries, os);
          if inner != map[] {
            result := result[k := Section(inner)];
          }
        } else if os in entry.osDefaults {
          if v != Leaf(entry.osDefaults[os]) {
            result := result[k := v];
          }
        } else if entry.default.Some? {
          if v != Leaf(entry.default.value) {
            result := result[k := v];
          }
        }
      }
    }
    assert result == PruneEntries(s, entries, os);
  }

  class ConfigData {
    const schema: Schema
    const os: string
    var config: Entries

    constructor (schema: Schema, os: string, config: Entries)
      ensures this.schema == schema && this.os == os && this.config == config
    {
      this.schema, this.os, this.config := schema, os, config;
    }

    method NonDefaults() returns (saved: Entries)
      requires schema.Group? && WellTyped(schema, Section(config))
      ensures saved == PruneEntries(schema, config, os)
    {
      saved := Traverse(schema, config, os);
    }

    method Load(saved: Entries) returns (ok: bool)
      requires schema.Group?
      modifies this
      ensures ok <==> Fill(schema, Some(Section(saved)), os).Some?
      ensures ok ==> Section(config) == Fill(schema, Some(Section(saved)), os).value
    {
      config := saved;
      var filled, _ := AddDefaults(schema, config, os);
      if filled.None? {
        return false;
      }
      config := filled.value;
      return true;
    }

    /** Saving, any changes in between, and loading again on exit: the configuration is back exactly
        when it was restorable. */
    method Temporarily(changed: Entries) returns (ok: bool)
      requires schema.Group? && WellTyped(schema, Section(config))
      modifies this
      ensures ok && config == old(config) <==> Restorable(schema, Section(old(config)), os)
    {
      var saved := NonDefaults();
      FillUndoesPruneIff(schema, Section(config), os);
      FillMissing(schema, os);
      config := changed;
      ok := Load(saved);
    }
  }
}
