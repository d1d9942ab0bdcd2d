/** src/config/merging.cpp: merging one configuration value onto another. */
module Merging {
  import opened Bytes
  import opened Toml

  /** toml::type_error. */
  datatype TypeError = TypeError

  /** What merging means: the addition wins on scalars, is appended on arrays, and is merged
      key by key on tables; any clash of types inside is an error of the whole. */
  function Merge(a: Value, b: Value): Result<Value, TypeError>
    decreases a
  {
    if TypeOf(a) != TypeOf(b) then Err(TypeError)
    else match a
      case Scalar(_, _) => Ok(b)
      case Array(elems) => Ok(Array(elems + b.elems))
      case Table(m) =>
        if exists k :: k in m && k in b.entries && Merge(m[k], b.entries[k]).Err? then Err(TypeError)
        else Ok(Table(map k | k in m.Keys + b.entries.Keys ::
                  if k !in b.entries then m[k]
                  else if k !in m then b.entries[k]
                  else Merge(m[k], b.entries[k]).value))
  }

  /** merge_values: copy the base and update the copy key by key. */
  method MergeValues(base: Value, addition: Value) returns (r: Result<Value, TypeError>)
    ensures r == Merge(base, addition)
    decreases base
  {
    if TypeOf(base) != TypeOf(addition) {
      return Err(TypeError);
    }
    match base {
      case Array(elems) =>
        var ret := elems;
        ret := ret + addition.elems;
        return Ok(Array(ret));
      case Table(entries) =>
        var ret := entries;
        var todo := addition.entries.Keys;
        while todo != {}
          invariant todo <= addition.entries.Keys
          invariant ret.Keys == entries.Keys + (addition.entries.Keys - todo)
          invariant forall k :: k in entries && k in addition.entries && k !in todo ==>
                      Merge(entries[k], addition.entries[k]) == Ok(ret[k])
          invariant forall k :: k in addition.entries && k !in entries && k !in todo ==> ret[k] == addition.entries[k]
          invariant forall k :: k in entries && (k !in addition.entries || k in todo) ==> ret[k] == entries[k]
          decreases todo
        {
          var key :| key in todo;
          todo := todo - {key};
          if key in entries {
            var merged := MergeValues(entries[key], addition.entries[key]);
            if merged.Err? {
              return Err(TypeError);
            }
            ret := ret[key := merged.value];
          } else {
            ret := ret[key := addition.entries[key]];
          }
        }
        ghost var spec := Merge(base, addition);
        assert spec.Ok?;
        assert ret.Keys == spec.value.entries.Keys;
        assert forall k :: k in ret ==> ret[k] == spec.value.entries[k];
        assert ret == spec.value.entries;
        return Ok(Table(ret));
      case Scalar(_, _) =>
        return Ok(addition);
    }
  }

  // ---- paths ----

  /** The value at a path of table keys. */
  function Lookup(v: Value, path: seq<string>): Option<Value> {
    if path == [] then Some(v)
    else if v.Table? && path[0] in v.entries then Lookup(v.entries[path[0]], path[1..])
    else None
  }

  /** Two values that can be merged at the top: two tables, two arrays, or two scalars of one
      kind. */
  predicate SameShape(v: Value, w: Value) {
    || (v.Table? && w.Table?)
    || (v.Array? && w.Array?)
    || (v.Scalar? && w.Scalar? && v.kind == w.kind)
  }

  lemma TypesAreShapes(v: Value, w: Value)
    ensures TypeOf(v) == TypeOf(w) <==> SameShape(v, w)
  {
  }

  /** Some path leads to values of different shapes in the two. */
  ghost predicate Clash(a: Value, b: Value) {
    exists path :: ClashAt(a, b, path)
  }

  ghost predicate ClashAt(a: Value, b: Value, path: seq<string>) {
    Lookup(a, path).Some? && Lookup(b, path).Some? && !SameShape(Lookup(a, path).value, Lookup(b, path).value)
  }

  /** Merging fails exactly when some path leads, on the two sides, to values that are not both
      tables, not both arrays, and not scalars of one kind. */
  lemma {:induction false} MergeFailsOnClash(a: Value, b: Value)
    ensures Merge(a, b).Err? <==> Clash(a, b)
    decreases a
  {
    TypesAreShapes(a, b);
    if TypeOf(a) != TypeOf(b) {
      assert ClashAt(a, b, []);
    } else {
      if Merge(a, b).Err? {
        var k :| k in a.entries && k in b.entries && Merge(a.entries[k], b.entries[k]).Err?;
        MergeFailsOnClash(a.entries[k], b.entries[k]);
        var path :| ClashAt(a.entries[k], b.entries[k], path);
        assert ([k] + path)[1..] == path;
        assert ClashAt(a, b, [k] + path);
      }
      if Clash(a, b) {
        var path :| ClashAt(a, b, path);
        assert path != [];
        var k := path[0];
        assert ClashAt(a.entries[k], b.entries[k], path[1..]);
        MergeFailsOnClash(a.entries[k], b.entries[k]);
      }
    }
  }

  /** What merging leaves at a path, from the two lookups alone. */
  function Combined(x: Option<Value>, y: Option<Value>): Option<Value> {
    match (x, y)
    case (Some(v), Some(w)) =>
      if v.Array? && w.Array? then Some(Array(v.elems + w.elems)) else Some(w)
    case (Some(v), None) => x
    case (None, _) => y
  }

  /** Lookup in a merged configuration: a path of either side is there and no other; values
      on one side only are unchanged, shared arrays are base then addition, shared tables
      have the keys of both, and any other shared value is the addition's. */
  lemma {:induction false} MergedLookup(a: Value, b: Value, path: seq<string>)
    requires Merge(a, b).Ok?
    ensures var r := Lookup(Merge(a, b).value, path);
            var x, y := Lookup(a, path), Lookup(b, path);
            if x.Some? && y.Some? && x.value.Table? then
              && y.value.Table? && r.Some? && r.value.Table?
              && r.value.entries.Keys == x.value.entries.Keys + y.value.entries.Keys
            else r == Combined(x, y)
    decreases |path|
  {
    if path != [] && a.Table? {
      var k := path[0];
      if k in a.entries && k in b.entries {
        assert Merge(a.entries[k], b.entries[k]).Ok?;
        MergedLookup(a.entries[k], b.entries[k], path[1..]);
      }
    }
  }

  /** Small merges: a text replaces a text, an array is appended to an array, what only one
      table has stays, and an integer does not merge with a text. */
  lemma MergeExamples(n: Value, m: Value)
    ensures Merge(Scalar(Text, "asdf"), Scalar(Text, "asdf2")) == Ok(Scalar(Text, "asdf2"))
    ensures Merge(Array([n]), Array([m])) == Ok(Array([n, m]))
    ensures Merge(Table(map["a" := n]), Table(map["b" := m])) == Ok(Table(map["a" := n, "b" := m]))
    ensures Merge(Scalar(Text, "asdf"), Scalar(Integer, "42")).Err?
    ensures Merge(Table(map["a" := Scalar(Text, "asdf")]), Table(map["a" := Scalar(Integer, "42")])).Err?
  {
    assert [n] + [m] == [n, m];
    var merged := Merge(Table(map["a" := n]), Table(map["b" := m])).value.entries;
    assert "a" != "b" by {
      assert "a"[0] != "b"[0];
    }
    assert merged == map["a" := n, "b" := m];
    var text, number := map["a" := Scalar(Text, "asdf")], map["a" := Scalar(Integer, "42")];
    assert "a" in text && "a" in number && Merge(text["a"], number["a"]).Err?;
  }

  // ---- algebra ----

  lemma EmptyTableIsIdentity(m: map<string, Value>)
    ensures Merge(Table(m), Table(map[])) == Ok(Table(m)) && Merge(Table(map[]), Table(m)) == Ok(Table(m))
  {
    var r := Merge(Table(m), Table(map[])).value.entries;
    assert r == m;
    var l := Merge(Table(map[]), Table(m)).value.entries;
    assert l == m;
  }

  function Then(r: Result<Value, TypeError>, c: Value): Result<Value, TypeError> {
    match r
    case Ok(v) => Merge(v, c)
    case Err(e) => Err(e)
  }

  function Before(a: Value, r: Result<Value, TypeError>): Result<Value, TypeError> {
    match r
    case Ok(v) => Merge(a, v)
    case Err(e) => Err(e)
  }

  /** Merging three configurations does not depend on the grouping: both ways fail, or both
      give the same value. */
  lemma {:induction false} MergeIsAssociative(a: Value, b: Value, c: Value)
    ensures Then(Merge(a, b), c) == Before(a, Merge(b, c))
    decreases b
  {
    MergeKeepsType(a, b);
    MergeKeepsType(b, c);
    if TypeOf(a) == TypeOf(b) == TypeOf(c) {
      match b {
        case Scalar(_, _) =>
        case Array(_) => assert (a.elems + b.elems) + c.elems == a.elems + (b.elems + c.elems);
        case Table(_) =>
          forall k | k in a.entries && k in b.entries && k in c.entries
            ensures Then(Merge(a.entries[k], b.entries[k]), c.entries[k])
                 == Before(a.entries[k], Merge(b.entries[k], c.entries[k]))
          {
            MergeIsAssociative(a.entries[k], b.entries[k], c.entries[k]);
          }
          TablesAssociate(a.entries, b.entries, c.entries);
      }
    }
  }

  lemma MergeKeepsType(a: Value, b: Value)
    ensures Merge(a, b).Ok? ==> TypeOf(Merge(a, b).value) == TypeOf(a) == TypeOf(b)
    ensures TypeOf(a) != TypeOf(b) ==> Merge(a, b).Err?
  {
  }

  lemma TablesAssociate(a: map<string, Value>, b: map<string, Value>, c: map<string, Value>)
    requires forall k :: k in a && k in b && k in c ==> Then(Merge(a[k], b[k]), c[k]) == Before(a[k], Merge(b[k], c[k]))
    ensures Then(Merge(Table(a), Table(b)), Table(c)) == Before(Table(a), Merge(Table(b), Table(c)))
  {
    var l, r := Then(Merge(Table(a), Table(b)), Table(c)), Before(Table(a), Merge(Table(b), Table(c)));
    if l.Ok? {
      assert r.Ok?;
      assert l.value.entries == r.value.entries;
    } else {
      assert r.Err?;
    }
  }
}
