/** TOML documents: deep merge of an overlay into a base, and lookup by dotted key. */
module ConfigMerge {

  datatype Value =
    | String(text: string)
    | Integer(n: int)
    | Float(repr: string)
    | Boolean(b: bool)
    | Datetime(repr: string)
    | Array(items: seq<Value>)
    | Table(entries: map<string, Value>)

  datatype Option<+T> = None | Some(value: T)

  // ---- merge ----------------------------------------------------------------------------------

  function Merge(base: Value, overlay: Value): Value
    decreases overlay
  {
    if base.Table? && overlay.Table? then
      Table(map k | k in base.entries.Keys + overlay.entries.Keys ::
        if k !in overlay.entries then base.entries[k]
        else if k in base.entries then Merge(base.entries[k], overlay.entries[k])
        else overlay.entries[k])
    else overlay
  }

  /** One key of two tables merged. */
  function MergeKey(base: map<string, Value>, overlay: map<string, Value>, k: string): Value
    requires k in base || k in overlay
  {
    if k !in overlay then base[k] else if k in base then Merge(base[k], overlay[k]) else overlay[k]
  }

  lemma MergeTables(base: map<string, Value>, overlay: map<string, Value>)
    ensures Merge(Table(base), Table(overlay)).Table?
    ensures Merge(Table(base), Table(overlay)).entries.Keys == base.Keys + overlay.Keys
    ensures forall k | k in base || k in overlay ::
              Merge(Table(base), Table(overlay)).entries[k] == MergeKey(base, overlay, k)
  {
  }

  /** `merge_values`: the overlay's entries are moved into the base one by one, in whatever
      order the table yields them. */
  method MergeValues(base: Value, overlay: Value) returns (merged: Value)
    ensures merged == Merge(base, overlay)
    decreases overlay
  {
    if !(base.Table? && overlay.Table?) { return overlay; }
    var table := base.entries;
    var todo := overlay.entries.Keys;
    MergeTables(base.entries, overlay.entries);
    while todo != {}
      invariant todo <= overlay.entries.Keys
      invariant table.Keys == base.entries.Keys + (overlay.entries.Keys - todo)
      invariant forall k | k in table ::
                  table[k] == if k in todo then base.entries[k] else MergeKey(base.entries, overlay.entries, k)
      decreases todo
    {
      var key :| key in todo;
      if key in table {
        var merged := MergeValues(table[key], overlay.entries[key]);
        table := table[key := merged];
      } else {
        table := table[key := overlay.entries[key]];
      }
      todo := todo - {key};
    }
    merged := Table(table);
    assert merged.entries == Merge(base, overlay).entries;
  }

  // ---- dotted lookup ----------------------------------------------------------------------------

  type Path = seq<string>

  function Lookup(v: Value, path: Path): Option<Value> {
    if path == [] then Some(v)
    else if v.Table? && path[0] in v.entries then Lookup(v.entries[path[0]], path[1..])
    else None
  }

  /** The parts between the dots; always at least one, possibly empty. */
  function SplitDots(key: string): (parts: Path)
    ensures |parts| >= 1
  {
    if key == "" then [""]
    else if key[0] == '.' then [""] + SplitDots(key[1..])
    else
      var rest := SplitDots(key[1..]);
      [[key[0]] + rest[0]] + rest[1..]
  }

  function JoinDots(parts: Path): string {
    if parts == [] then "" else if |parts| == 1 then parts[0] else parts[0] + "." + JoinDots(parts[1..])
  }

  method GetNestedValue(value: Value, key: string) returns (found: Option<Value>)
    ensures found == Lookup(value, SplitDots(key))
  {
    var current := value;
    var parts := SplitDots(key);
    for i := 0 to |parts|
      invariant Lookup(current, parts[i..]) == Lookup(value, parts)
    {
      assert parts[i..][0] == parts[i] && parts[i..][1..] == parts[i + 1..];
      if !current.Table? || parts[i] !in current.entries { return None; }
      current := current.entries[parts[i]];
    }
    assert parts[|parts|..] == [];
    found := Some(current);
  }

  predicate DotFree(part: string) { '.' !in part }

  /** Splitting and joining are inverse, so a dotted key addresses exactly one path. */
  lemma {:induction false} SplitJoin(key: string)
    ensures JoinDots(SplitDots(key)) == key
    ensures forall i | 0 <= i < |SplitDots(key)| :: DotFree(SplitDots(key)[i])
  {
    if key != "" {
      var parts, rest := SplitDots(key), SplitDots(key[1..]);
      SplitJoin(key[1..]);
      if key[0] == '.' {
        assert parts[1..] == rest;
      } else {
        assert parts[1..] == rest[1..];
        assert |rest| > 1 ==> JoinDots(rest) == rest[0] + "." + JoinDots(rest[1..]);
      }
    }
  }

  lemma {:induction false} JoinSplit(parts: Path)
    requires parts != [] && forall i | 0 <= i < |parts| :: DotFree(parts[i])
    ensures SplitDots(JoinDots(parts)) == parts
    decreases |parts|, |parts[0]|
  {
    var key := JoinDots(parts);
    if parts[0] != "" {
      var shorter := [parts[0][1..]] + parts[1..];
      JoinSplit(shorter);
      assert shorter[1..] == parts[1..];
      assert key[1..] == JoinDots(shorter);
      assert [parts[0][0]] + parts[0][1..] == parts[0];
      assert parts == [parts[0]] + parts[1..];
    } else if |parts| > 1 {
      JoinSplit(parts[1..]);
      assert key[1..] == JoinDots(parts[1..]);
      assert parts == [""] + parts[1..];
    }
  }

  // ---- lookup after merge -------------------------------------------------------------------------

  /** Some proper prefix of the path (possibly the empty one) is a non-table in `v`. */
  predicate Hides(v: Value, path: Path) {
    path != [] && (!v.Table? || (path[0] in v.entries && Hides(v.entries[path[0]], path[1..])))
  }

  /** The overlay decides wherever it says anything: a non-table wins, a non-table on the way
      hides the path, two tables merge, and an uncovered path keeps the base's answer. */
  function Answer(base: Value, overlay: Value, path: Path): Option<Value> {
    var b, o := Lookup(base, path), Lookup(overlay, path);
    if Hides(overlay, path) then None
    else if o.None? then b
    else if o.value.Table? && b.Some? && b.value.Table? then Some(Merge(b.value, o.value))
    else o
  }

  lemma {:induction false} LookupAfterMerge(base: Value, overlay: Value, path: Path)
    ensures Lookup(Merge(base, overlay), path) == Answer(base, overlay, path)
    decreases |path|
  {
    if path != [] && base.Table? && overlay.Table? {
      MergeTables(base.entries, overlay.entries);
      var k := path[0];
      if k in base.entries && k in overlay.entries {
        LookupAfterMerge(base.entries[k], overlay.entries[k], path[1..]);
      }
      if k in overlay.entries { HiddenIsAbsent(overlay.entries[k], path[1..]); }
    }
    HiddenIsAbsent(overlay, path);
  }

  lemma {:induction false} HiddenIsAbsent(v: Value, path: Path)
    ensures Hides(v, path) ==> Lookup(v, path).None?
    ensures path != [] && !v.Table? ==> Hides(v, path)
    decreases |path|
  {
    if path != [] && v.Table? && path[0] in v.entries { HiddenIsAbsent(v.entries[path[0]], path[1..]); }
  }

  // ---- algebra of merging -----------------------------------------------------------------------

  lemma TablesEqual(x: Value, y: Value)
    requires x.Table? && y.Table? && x.entries.Keys == y.entries.Keys
    requires forall k | k in x.entries :: x.entries[k] == y.entries[k]
    ensures x == y
  {
    assert x.entries == y.entries;
  }

  lemma EmptyIsIdentity(v: Value)
    requires v.Table?
    ensures Merge(Table(map[]), v) == v && Merge(v, Table(map[])) == v
  {
    MergeTables(map[], v.entries);
    MergeTables(v.entries, map[]);
    TablesEqual(Merge(Table(map[]), v), v);
    TablesEqual(Merge(v, Table(map[])), v);
  }

  lemma {:induction false} Idempotent(v: Value)
    ensures Merge(v, v) == v
    decreases v
  {
    if v.Table? {
      MergeTables(v.entries, v.entries);
      forall k | k in v.entries ensures Merge(v.entries[k], v.entries[k]) == v.entries[k] {
        Idempotent(v.entries[k]);
      }
      TablesEqual(Merge(v, v), v);
    }
  }

  /** Merging `a` below `c` adds nothing: `c` speaks about every path of `a`. */
  predicate Absorbs(c: Value, a: Value)
    decreases a
  {
    a.Table? && c.Table? ==> forall k | k in a.entries :: k in c.entries && Absorbs(c.entries[k], a.entries[k])
  }

  lemma {:induction false} AbsorbsExactly(a: Value, c: Value)
    ensures Merge(a, c) == c <==> Absorbs(c, a)
    decreases a
  {
    if a.Table? && c.Table? {
      MergeTables(a.entries, c.entries);
      forall k | k in a.entries && k in c.entries
        ensures Merge(a.entries[k], c.entries[k]) == c.entries[k] <==> Absorbs(c.entries[k], a.entries[k])
      {
        AbsorbsExactly(a.entries[k], c.entries[k]);
      }
      if Absorbs(c, a) {
        TablesEqual(Merge(a, c), c);
      } else {
        var k :| k in a.entries && !(k in c.entries && Absorbs(c.entries[k], a.entries[k]));
        assert Merge(a, c).entries.Keys != c.entries.Keys || Merge(a, c).entries[k] != c.entries[k];
      }
    }
  }

  /** Nowhere does a non-table of `b` stand between a table of `a` and a table of `c` that
      leaves out part of it. */
  predicate Chains(a: Value, b: Value, c: Value)
    decreases a
  {
    if !a.Table? || !c.Table? then true
    else if !b.Table? then Absorbs(c, a)
    else forall k | k in a.entries && k in b.entries && k in c.entries :: Chains(a.entries[k], b.entries[k], c.entries[k])
  }

  /** Merging three layers may be regrouped exactly when they chain. */
  lemma {:induction false} AssociativeExactly(a: Value, b: Value, c: Value)
    ensures Merge(Merge(a, b), c) == Merge(a, Merge(b, c)) <==> Chains(a, b, c)
    decreases a
  {
    if a.Table? && c.Table? {
      if !b.Table? {
        AbsorbsExactly(a, c);
      } else {
        var l, r := Merge(Merge(a, b), c), Merge(a, Merge(b, c));
        MergeTables(a.entries, b.entries);
        MergeTables(b.entries, c.entries);
        MergeTables(Merge(a, b).entries, c.entries);
        MergeTables(a.entries, Merge(b, c).entries);
        assert l.entries.Keys == r.entries.Keys;
        forall k | k in l.entries
          ensures l.entries[k] == r.entries[k] <==>
            !(k in a.entries && k in b.entries && k in c.entries) || Chains(a.entries[k], b.entries[k], c.entries[k])
        {
          if k in a.entries && k in b.entries && k in c.entries {
            AssociativeExactly(a.entries[k], b.entries[k], c.entries[k]);
          }
        }
        if Chains(a, b, c) { TablesEqual(l, r); }
      }
    }
  }

  /** Where one document has a table, the other has no non-table. */
  ghost predicate SameShape(x: Value, y: Value) {
    forall path: Path ::
      (Lookup(x, path).Some? && Lookup(y, path).Some? ==> (Lookup(x, path).value.Table? <==> Lookup(y, path).value.Table?))
  }

  lemma ShapeOfEntry(x: Value, y: Value, k: string)
    requires SameShape(x, y) && x.Table? && y.Table? && k in x.entries && k in y.entries
    ensures SameShape(x.entries[k], y.entries[k])
  {
    forall path: Path
      ensures Lookup(x.entries[k], path).Some? && Lookup(y.entries[k], path).Some? ==>
                (Lookup(x.entries[k], path).value.Table? <==> Lookup(y.entries[k], path).value.Table?)
    {
      var full := [k] + path;
      assert full[1..] == path;
      assert Lookup(x, full) == Lookup(x.entries[k], path) && Lookup(y, full) == Lookup(y.entries[k], path);
    }
  }

  /** In particular layers of the same shape chain. */
  lemma {:induction false} SameShapeChains(a: Value, b: Value, c: Value)
    requires SameShape(a, b) && SameShape(b, c)
    ensures Chains(a, b, c)
    decreases a
  {
    assert Lookup(a, []) == Some(a) && Lookup(b, []) == Some(b);
    if a.Table? && b.Table? && c.Table? {
      forall k | k in a.entries && k in b.entries && k in c.entries
        ensures Chains(a.entries[k], b.entries[k], c.entries[k])
      {
        ShapeOfEntry(a, b, k);
        ShapeOfEntry(b, c, k);
        SameShapeChains(a.entries[k], b.entries[k], c.entries[k]);
      }
    }
  }

  /** A section, a number in its place, and the section again without its key. */
  function Section(v: Value): Value { Table(map["k" := v]) }

  lemma SectionChains(a: Value, b: Value, c: Value)
    ensures Chains(Section(a), Section(b), Section(c)) <==> Chains(a, b, c)
  {
    assert "k" in Section(a).entries && "k" in Section(b).entries && "k" in Section(c).entries;
  }

  /** The smallest configuration layers that do not chain. */
  lemma NotAssociative()
    ensures var a, b, c := Section(Table(map["x" := Integer(1)])), Section(Integer(0)), Section(Table(map[]));
            Merge(Merge(a, b), c) != Merge(a, Merge(b, c))
  {
    var a, b, c := Table(map["x" := Integer(1)]), Integer(0), Table(map[]);
    assert "x" in a.entries && "x" !in c.entries;
    assert !Chains(a, b, c);
    SectionChains(a, b, c);
    hide Merge;
    AssociativeExactly(Section(a), Section(b), Section(c));
  }
}
