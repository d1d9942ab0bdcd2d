/** src/config/config.h: the tree of logging levels and its lookup by dotted logger name. */
module LogLevels {
  import opened Bytes
  import opened Toml

  datatype Level = Trace | Debug | Info | Warn | Error | Critical | Off

  /** TypeError: not a string, or not a table. InternalError: not the name of a level. */
  datatype ConfigError = TypeError | InternalError

  const LEVEL: string := "level"

  function Lower(c: char): char {
    if 'A' <= c <= 'Z' then (c as int + 32) as char else c
  }

  function LowerAll(s: string): string {
    if s == "" then "" else [Lower(s[0])] + LowerAll(s[1..])
  }

  /** The level names of the logging library, in any case. */
  function ParseLevel(v: Value): Result<Level, ConfigError> {
    if !(v.Scalar? && v.kind == Text) then Err(TypeError)
    else
      var s := LowerAll(v.text);
      if s == "trace" then Ok(Trace)
      else if s == "debug" then Ok(Debug)
      else if s == "info" then Ok(Info)
      else if s == "warning" || s == "warn" then Ok(Warn)
      else if s == "error" || s == "err" then Ok(Error)
      else if s == "critical" then Ok(Critical)
      else if s == "off" then Ok(Off)
      else Err(InternalError)
  }

  /** The names a level goes by. */
  function Names(l: Level): set<string> {
    match l
    case Trace => {"trace"}
    case Debug => {"debug"}
    case Info => {"info"}
    case Warn => {"warning", "warn"}
    case Error => {"error", "err"}
    case Critical => {"critical"}
    case Off => {"off"}
  }

  /** The same letter, or the capital of a small one. */
  predicate SameLetter(c: char, small: char) {
    c == small || ('A' <= c <= 'Z' && c as int + 32 == small as int)
  }

  /** The text is the name, with capitals for any of its letters. */
  predicate InAnyCase(text: string, name: string) {
    |text| == |name| && forall i :: 0 <= i < |name| ==> SameLetter(text[i], name[i])
  }

  /** A text value that is a name of this level. */
  ghost predicate IsNameOf(v: Value, l: Level) {
    v.Scalar? && v.kind == Text && exists n :: n in Names(l) && InAnyCase(v.text, n)
  }

  predicate AllSmall(name: string) { forall i :: 0 <= i < |name| ==> 'a' <= name[i] <= 'z' }

  lemma LowerIsSameLetter(c: char, small: char)
    requires 'a' <= small <= 'z'
    ensures Lower(c) == small <==> SameLetter(c, small)
  {
  }

  lemma {:induction false} LowerIsAnyCase(text: string, name: string)
    requires AllSmall(name)
    ensures LowerAll(text) == name <==> InAnyCase(text, name)
  {
    if text != "" && name != "" {
      LowerIsSameLetter(text[0], name[0]);
      LowerIsAnyCase(text[1..], name[1..]);
      hide SameLetter, Lower;
      assert name == [name[0]] + name[1..];
      InAnyCaseNext(text, name);
    }
  }

  lemma InAnyCaseNext(text: string, name: string)
    requires text != "" && name != ""
    ensures InAnyCase(text, name) <==> SameLetter(text[0], name[0]) && InAnyCase(text[1..], name[1..])
  {
    hide SameLetter;
    assert forall i :: 0 < i < |text| ==> text[1..][i - 1] == text[i];
    assert forall i :: 0 < i < |name| ==> name[1..][i - 1] == name[i];
  }

  lemma NameIsLetters(l: Level, name: string)
    requires name in Names(l)
    ensures AllSmall(name)
  {
  }

  lemma LevelOfName(text: string, l: Level)
    ensures ParseLevel(Scalar(Text, text)) == Ok(l) <==> LowerAll(text) in Names(l)
  {
    hide LowerAll;
    assert "trace"[0] != "debug"[0] && "trace"[0] != "error"[0] && "debug"[0] != "error"[0];
    assert "info"[0] != "warn"[0] && "err"[0] != "off"[0];
  }

  /** Which values name which level; what is not a text is an error of its own. */
  lemma LevelNames(v: Value, l: Level)
    ensures ParseLevel(v) == Ok(l) <==> IsNameOf(v, l)
    ensures ParseLevel(v) == Err(TypeError) <==> !(v.Scalar? && v.kind == Text)
  {
    if v.Scalar? && v.kind == Text {
      LevelOfName(v.text, l);
      forall n | n in Names(l) ensures LowerAll(v.text) == n <==> InAnyCase(v.text, n) {
        NameIsLetters(l, n);
        LowerIsAnyCase(v.text, n);
      }
    }
  }

  // ---- the tree as a value ----

  datatype Tree = Node(level: Level, children: map<string, Tree>)

  /** A configuration that from_toml accepts: tables all the way down, except for the level
      entry of each, which names a level. */
  predicate Accepted(v: Value) {
    && v.Table?
    && (LEVEL in v.entries ==> ParseLevel(v.entries[LEVEL]).Ok?)
    && forall k :: k in v.entries && k != LEVEL ==> Accepted(v.entries[k])
  }

  /** The value at a path of keys that are not level entries. */
  function ValueAt(v: Value, path: seq<string>): Option<Value> {
    if path == [] then Some(v)
    else if v.Table? && path[0] != "level" && path[0] in v.entries then ValueAt(v.entries[path[0]], path[1..])
    else None
  }

  /** What is wrong with a value by itself: it is no table, or its level entry names no level. */
  ghost predicate HasFault(v: Value, e: ConfigError) {
    || (!v.Table? && e == TypeError)
    || (v.Table? && "level" in v.entries && ParseLevel(v.entries["level"]) == Err(e))
  }

  ghost predicate FaultAt(v: Value, path: seq<string>, e: ConfigError) {
    ValueAt(v, path).Some? && HasFault(ValueAt(v, path).value, e)
  }

  ghost predicate Faulty(v: Value, e: ConfigError) { exists path :: FaultAt(v, path, e) }

  lemma ChildIsFaulty(v: Value, k: string, e: ConfigError)
    requires v.Table? && k in v.entries && k != LEVEL && Faulty(v.entries[k], e)
    ensures Faulty(v, e)
  {
    var path :| FaultAt(v.entries[k], path, e);
    FaultBelow(v, k, path, e);
  }

  lemma FaultBelow(v: Value, k: string, path: seq<string>, e: ConfigError)
    requires v.Table? && k in v.entries && k != LEVEL && FaultAt(v.entries[k], path, e)
    ensures FaultAt(v, [k] + path, e)
  {
    assert ([k] + path)[1..] == path;
  }

  /** A configuration is accepted exactly when every value in it is in order: at each path of
      keys a table, whose level entry is absent or names a level. */
  lemma AcceptedEverywhere(v: Value)
    ensures Accepted(v) <==> forall path :: InOrderAt(v, path)
    ensures Accepted(v) <==> forall e :: !Faulty(v, e)
  {
    if Accepted(v) {
      forall path | ValueAt(v, path).Some?
        ensures InOrderAt(v, path) && forall e :: !FaultAt(v, path, e)
      {
        AcceptedBelow(v, path);
        FaultOrInOrder(ValueAt(v, path).value);
      }
    } else {
      var path, e := FindFault(v);
      var t := ValueAt(v, path).value;
      FaultOrInOrder(t);
      assert HasFault(t, e) && !InOrderAt(v, path) && Faulty(v, e);
    }
  }

  /** A table whose level entry is absent or names a level. */
  ghost predicate InOrder(t: Value) {
    t.Table? && ("level" in t.entries ==> exists l :: IsNameOf(t.entries["level"], l))
  }

  ghost predicate InOrderAt(v: Value, path: seq<string>) {
    ValueAt(v, path).Some? ==> InOrder(ValueAt(v, path).value)
  }

  lemma FaultOrInOrder(t: Value)
    ensures InOrder(t) <==> forall e :: !HasFault(t, e)
  {
    if t.Table? && "level" in t.entries {
      var n := t.entries["level"];
      forall l ensures ParseLevel(n) == Ok(l) <==> IsNameOf(n, l) {
        LevelNames(n, l);
      }
      assert ParseLevel(n).Ok? ==> IsNameOf(n, ParseLevel(n).value);
      assert ParseLevel(n).Err? ==> HasFault(t, ParseLevel(n).error);
    } else {
      assert !t.Table? ==> HasFault(t, TypeError);
    }
  }

  lemma {:induction false} AcceptedBelow(v: Value, path: seq<string>)
    requires Accepted(v)
    ensures ValueAt(v, path).Some? ==> Accepted(ValueAt(v, path).value)
    decreases |path|
  {
    if path != [] && path[0] != LEVEL && path[0] in v.entries {
      AcceptedBelow(v.entries[path[0]], path[1..]);
    }
  }

  lemma {:induction false} FindFault(v: Value) returns (path: seq<string>, e: ConfigError)
    requires !Accepted(v)
    ensures FaultAt(v, path, e)
    decreases v
  {
    if !v.Table? {
      path, e := [], TypeError;
    } else if LEVEL in v.entries && ParseLevel(v.entries[LEVEL]).Err? {
      path, e := [], ParseLevel(v.entries[LEVEL]).error;
    } else {
      var k :| k in v.entries && k != LEVEL && !Accepted(v.entries[k]);
      path, e := FindFault(v.entries[k]);
      FaultBelow(v, k, path, e);
      path := [k] + path;
    }
  }

  /** The tree of an accepted configuration; a table without a level entry has level info. */
  function TreeOf(v: Value): Tree
    requires Accepted(v)
  {
    Node(if LEVEL in v.entries then ParseLevel(v.entries[LEVEL]).value else Info,
         map k | k in v.entries && k != LEVEL :: TreeOf(v.entries[k]))
  }

  /** The node at a path of children. */
  function NodeAt(t: Tree, path: seq<string>): Option<Tree> {
    if path == [] then Some(t)
    else if path[0] in t.children then NodeAt(t.children[path[0]], path[1..])
    else None
  }

  // ---- dotted names ----

  function Head(name: string): (h: string)
    ensures |h| <= |name| && h == name[..|h|] && '.' !in h && (|h| < |name| ==> name[|h|] == '.')
  {
    if name == "" || name[0] == '.' then "" else [name[0]] + Head(name[1..])
  }

  /** What is left behind the first dot, nothing if there is none. */
  function Rest(name: string): (r: string)
    ensures name != "" ==> |r| < |name|
  {
    var n := |Head(name)|;
    if n < |name| then name[n + 1..] else ""
  }

  function Components(name: string): (cs: seq<string>)
    decreases |name|
  {
    if name == "" then [] else [Head(name)] + Components(Rest(name))
  }

  /** The components with a dot behind each. */
  function Dotted(cs: seq<string>): string {
    if cs == [] then "" else cs[0] + "." + Dotted(cs[1..])
  }

  predicate DotFree(cs: seq<string>) {
    forall c :: c in cs ==> '.' !in c
  }

  /** A name that ends in a dot, or the empty one: a further dot would not end a component. */
  predicate EndsClosed(name: string) {
    name == "" || name[|name| - 1] == '.'
  }

  lemma HeadAndRest(name: string)
    requires name != ""
    ensures var h, r := Head(name), Rest(name);
            if |h| < |name| then name == h + "." + r && (EndsClosed(name) <==> EndsClosed(r))
            else name == h && r == "" && !EndsClosed(name)
  {
    var h, r := Head(name), Rest(name);
    if |h| < |name| {
      assert name == h + "." + r;
    } else {
      assert name[|name| - 1] in h;
    }
  }

  /** A name is its components with dots between them, and one trailing dot is worth nothing. */
  lemma {:induction false} ComponentsSpell(name: string)
    ensures DotFree(Components(name))
    ensures Dotted(Components(name)) == if EndsClosed(name) then name else name + "."
    decreases |name|
  {
    hide Head, Rest;
    if name != "" {
      var h, r := Head(name), Rest(name);
      HeadAndRest(name);
      ComponentsSpell(r);
      var cs := [h] + Components(r);
      assert cs[1..] == Components(r) && Dotted(cs) == h + "." + Dotted(Components(r));
      if |h| < |name| {
        assert h + "." + (r + ".") == (h + "." + r) + ".";
      }
    }
  }

  /** ... and they are the only dot-free list spelled that way. */
  lemma {:induction false} SpellingIsUnique(a: seq<string>, b: seq<string>)
    requires DotFree(a) && DotFree(b) && Dotted(a) == Dotted(b)
    ensures a == b
  {
    if a == [] || b == [] {
      assert b != [] ==> '.' in Dotted(b);
      assert a != [] ==> '.' in Dotted(a);
    } else {
      var s := Dotted(a);
      assert s[|a[0]|] == '.' && s[|b[0]|] == '.';
      assert a[0] in a && b[0] in b;
      assert forall i :: 0 <= i < |a[0]| ==> s[i] == a[0][i] != '.';
      assert forall i :: 0 <= i < |b[0]| ==> s[i] == b[0][i] != '.';
      assert a[0] == s[..|a[0]|] && b[0] == s[..|b[0]|];
      assert Dotted(a[1..]) == s[|a[0]| + 1..] == Dotted(b[1..]);
      SpellingIsUnique(a[1..], b[1..]);
    }
  }

  // ---- lookup ----

  /** get_level on the tree. */
  function LevelOf(t: Tree, name: string): Level
    decreases |name|
  {
    if name == "" then t.level
    else if Head(name) in t.children then LevelOf(t.children[Head(name)], Rest(name))
    else t.level
  }

  /** The number of leading components that name a node. */
  ghost predicate Deepest(t: Tree, path: seq<string>, k: nat) {
    k <= |path| && NodeAt(t, path[..k]).Some? && forall j :: k < j <= |path| ==> NodeAt(t, path[..j]).None?
  }

  /** The lookup is longest-prefix match over the components of the name. */
  lemma {:induction false} LevelIsLongestPrefix(t: Tree, name: string, k: nat)
    requires Deepest(t, Components(name), k)
    ensures LevelOf(t, name) == NodeAt(t, Components(name)[..k]).value.level
    decreases |name|
  {
    hide Head, Rest;
    var path := Components(name);
    if name == "" {
      assert path[..k] == [];
    } else {
      var h := Head(name);
      assert path[0] == h && path[1..] == Components(Rest(name));
      if h in t.children {
        var c := t.children[h];
        assert path[..1][1..] == [] && NodeAt(t, path[..1]).Some?;
        assert k >= 1 && path[..k][1..] == path[1..][..k - 1];
        forall j | k - 1 < j <= |path[1..]| ensures NodeAt(c, path[1..][..j]).None? {
          assert path[..j + 1][1..] == path[1..][..j];
          assert NodeAt(t, path[..j + 1]).None?;
        }
        LevelIsLongestPrefix(c, Rest(name), k - 1);
      } else {
        forall j | 0 < j <= |path| ensures NodeAt(t, path[..j]).None? {
          assert path[..j][0] == h;
        }
        assert path[..0] == [];
      }
    }
  }

  /** Every name has a deepest node, so the lemma above always applies. */
  lemma {:induction false} DeepestExists(t: Tree, path: seq<string>) returns (k: nat)
    ensures Deepest(t, path, k)
  {
    if path == [] || path[0] !in t.children {
      k := 0;
      forall j | 0 < j <= |path| ensures NodeAt(t, path[..j]).None? {
        assert path[..j][0] == path[0];
      }
    } else {
      var c := t.children[path[0]];
      var n := DeepestExists(c, path[1..]);
      k := n + 1;
      assert path[..k][1..] == path[1..][..n];
      forall j | k < j <= |path| ensures NodeAt(t, path[..j]).None? {
        assert path[..j][1..] == path[1..][..j - 1];
      }
    }
  }

  // ---- from configuration to level ----

  /** The table at a path of a configuration; the level entry is not a step. */
  function TableAt(v: Value, path: seq<string>): Option<map<string, Value>> {
    if !v.Table? then None
    else if path == [] then Some(v.entries)
    else if path[0] != LEVEL && path[0] in v.entries then TableAt(v.entries[path[0]], path[1..])
    else None
  }

  /** Some logger name falls to this table: deeper along the name there is none. */
  ghost predicate DeepestTable(v: Value, path: seq<string>, k: nat) {
    k <= |path| && TableAt(v, path[..k]).Some? && forall j :: k < j <= |path| ==> TableAt(v, path[..j]).None?
  }

  lemma {:induction false} NodesAreTables(v: Value, path: seq<string>)
    requires Accepted(v)
    ensures NodeAt(TreeOf(v), path).Some? <==> TableAt(v, path).Some?
    ensures TableAt(v, path).Some? ==>
              var t := Table(TableAt(v, path).value);
              Accepted(t) && NodeAt(TreeOf(v), path).value == TreeOf(t)
    decreases |path|
  {
    if path != [] && path[0] != LEVEL && path[0] in v.entries {
      NodesAreTables(v.entries[path[0]], path[1..]);
    }
  }

  /** Loading and lookup together, in terms of the configuration alone: a logger has the level
      named in the deepest table along its dotted name, info if that table names none. */
  lemma ConfiguredLevel(v: Value, name: string, k: nat)
    requires Accepted(v) && DeepestTable(v, Components(name), k)
    ensures var t := TableAt(v, Components(name)[..k]).value;
            LevelOf(TreeOf(v), name) == if LEVEL in t then ParseLevel(t[LEVEL]).GetOr(Info) else Info
  {
    var path := Components(name);
    NodesAreTables(v, path[..k]);
    forall j | k < j <= |path| ensures NodeAt(TreeOf(v), path[..j]).None? {
      NodesAreTables(v, path[..j]);
    }
    LevelIsLongestPrefix(TreeOf(v), name, k);
  }

  lemma {:induction false} HeadIs(head: string, rest: string)
    requires '.' !in head
    ensures Head(head + "." + rest) == head && Rest(head + "." + rest) == rest
    ensures Head(head) == head && Rest(head) == ""
  {
    var s := head + "." + rest;
    if head != "" {
      HeadIs(head[1..], rest);
      assert s[1..] == head[1..] + "." + rest;
    }
    assert Head(s) == head && s[|head| + 1..] == rest;
  }

  function TextTable(level: string, others: map<string, Value>): Value {
    Table(others["level" := Scalar(Text, level)])
  }

  const CHILD: Value := TextTable("err", map[])
  const PARENT: Value := TextTable("trace", map["child" := CHILD])
  const DOCUMENTED: Value := TextTable("info", map["parent" := PARENT])

  lemma ExampleTree()
    ensures Accepted(DOCUMENTED)
    ensures TreeOf(DOCUMENTED) == Node(Info, map["parent" := Node(Trace, map["child" := Node(Error, map[])])])
  {
    ExampleLevels();
    hide ParseLevel;
    assert "child"[0] != "level"[0] && |"parent"| != |"level"|;
    assert CHILD.entries.Keys == {LEVEL} && Accepted(CHILD);
    assert TreeOf(CHILD) == Node(Error, map[]);
    assert PARENT.entries.Keys == {LEVEL, "child"} && PARENT.entries["child"] == CHILD && Accepted(PARENT);
    assert TreeOf(PARENT) == Node(Trace, map["child" := Node(Error, map[])]);
    assert DOCUMENTED.entries.Keys == {LEVEL, "parent"} && DOCUMENTED.entries["parent"] == PARENT;
  }

  /** The documented example: level = "info", parent.level = "trace" and
      parent.child.level = "err". */
  lemma DocumentedExample()
    ensures Accepted(DOCUMENTED)
    ensures var t := TreeOf(DOCUMENTED);
            && LevelOf(t, "") == LevelOf(t, "parent2") == Info
            && LevelOf(t, "parent") == LevelOf(t, "parent.child2") == Trace
            && LevelOf(t, "parent.child") == Error
  {
    ExampleTree();
    ExampleNames();
    hide Accepted, TreeOf, Head, Rest;
    var p := Node(Trace, map["child" := Node(Error, map[])]);
    assert LevelOf(p, "child") == LevelOf(p.children["child"], "") == Error;
    assert LevelOf(p, "child2") == LevelOf(p, "") == Trace;
  }

  const PARTIAL: Value := Table(map["parent" := TextTable("TRACE", map[])])
  const WRONG_TYPE: Value := Table(map["parent" := Table(map["level" := Scalar(Integer, "42")])])
  const WRONG_NAME: Value := Table(map["parent" := TextTable("invalid_level_name", map[])])

  /** Only parent.level is given, in capitals: everything else has level info. A level that is
      no text, or no name, is not accepted. */
  lemma PartialExample()
    ensures Accepted(PARTIAL) && !Accepted(WRONG_TYPE) && !Accepted(WRONG_NAME)
    ensures LevelOf(TreeOf(PARTIAL), "") == Info && LevelOf(TreeOf(PARTIAL), "parent") == Trace
    ensures LevelOf(TreeOf(PARTIAL), "parent2") == Info
    ensures FaultAt(WRONG_TYPE, ["parent"], TypeError) && FaultAt(WRONG_NAME, ["parent"], InternalError)
  {
    CapitalTrace();
    InvalidName();
    ExampleNames();
    hide ParseLevel, Head, Rest;
    assert |"parent"| != |"level"|;
    var p, t := TextTable("TRACE", map[]), Table(map["level" := Scalar(Integer, "42")]);
    var n := TextTable("invalid_level_name", map[]);
    assert p.entries.Keys == {LEVEL} && Accepted(p) && TreeOf(p) == Node(Trace, map[]);
    assert PARTIAL.entries.Keys == {"parent"} && PARTIAL.entries["parent"] == p;
    assert WRONG_TYPE.entries["parent"] == t && WRONG_NAME.entries["parent"] == n;
    assert ParseLevel(t.entries["level"]) == Err(TypeError) && ParseLevel(n.entries["level"]) == Err(InternalError);
    assert ["parent"][1..] == [];
    assert TreeOf(PARTIAL) == Node(Info, map["parent" := Node(Trace, map[])]);
  }

  lemma CapitalTrace()
    ensures ParseLevel(Scalar(Text, "TRACE")) == Ok(Trace)
  {
    LevelOfName("TRACE", Trace);
    hide ParseLevel, LowerAll;
    LowerIsAnyCase("TRACE", "trace");
  }

  lemma InvalidName()
    ensures ParseLevel(Scalar(Text, "invalid_level_name")) == Err(InternalError)
    ensures ParseLevel(Scalar(Integer, "42")) == Err(TypeError)
  {
    hide ParseLevel, Names;
    var v := Scalar(Text, "invalid_level_name");
    LevelNames(Scalar(Integer, "42"), Info);
    LevelNames(v, Info);
    var l := ParseLevel(v).GetOr(Info);
    LevelNames(v, l);
    NamesAreShort(l);
    assert |v.text| == 18 && !IsNameOf(v, l);
    assert ParseLevel(v).Err? && (ParseLevel(v).error == TypeError || ParseLevel(v).error == InternalError);
  }

  lemma NamesAreShort(l: Level)
    ensures forall n :: n in Names(l) ==> |n| <= 8
  {
  }

  lemma ExampleLevels()
    ensures ParseLevel(Scalar(Text, "info")) == Ok(Info)
    ensures ParseLevel(Scalar(Text, "trace")) == Ok(Trace)
    ensures ParseLevel(Scalar(Text, "err")) == Ok(Error)
  {
    LevelOfName("info", Info);
    LevelOfName("trace", Trace);
    LevelOfName("err", Error);
    hide ParseLevel, LowerAll;
    LowerIsAnyCase("info", "info");
    LowerIsAnyCase("trace", "trace");
    LowerIsAnyCase("err", "err");
  }

  lemma ExampleNames()
    ensures Head("parent.child") == Head("parent.child2") == Head("parent") == "parent"
    ensures Rest("parent.child") == "child" && Rest("parent.child2") == "child2" && Rest("parent") == ""
    ensures Head("parent2") == "parent2" && Head("child") == "child" && Head("child2") == "child2"
    ensures Rest("child") == Rest("child2") == Rest("parent2") == ""
  {
    hide Head, Rest;
    assert "parent.child" == "parent" + "." + "child" && "parent.child2" == "parent" + "." + "child2";
    HeadIs("parent", "child");
    HeadIs("parent", "child2");
    HeadIs("parent2", "");
    HeadIs("child", "");
    HeadIs("child2", "");
  }

  // ---- the tree of objects ----

  class LevelNode {
    var level: Level
    var children: map<string, LevelNode>
    ghost var tree: Tree
    ghost var Repr: set<object>

    ghost predicate Valid()
      reads this, Repr
      ensures Valid() ==> this in Repr
      decreases Repr
    {
      && this in Repr
      && (forall k :: k in children ==>
            && children[k] in Repr && children[k].Repr <= Repr && this !in children[k].Repr
            && children[k].Valid())
      && tree.level == level && tree.children.Keys == children.Keys
      && forall k :: k in children ==> tree.children[k] == children[k].tree
    }

    constructor ()
      ensures Valid() && Repr == {this} && tree == Node(Info, map[])
    {
      level, children := Info, map[];
      tree, Repr := Node(Info, map[]), {this};
    }

    /** from_toml: whatever the node held before, afterwards it is the tree of the value;
        exactly the values that are not accepted throw. */
    method FromToml(v: Value) returns (r: Result<(), ConfigError>)
      requires Valid()
      modifies this
      ensures Valid() && fresh(Repr - old(Repr))
      ensures r.Ok? <==> Accepted(v)
      ensures r.Ok? ==> tree == TreeOf(v)
      ensures r.Err? ==> Faulty(v, r.error)
      decreases v, 1
    {
      if !v.Table? {
        assert FaultAt(v, [], TypeError);
        return Err(TypeError);
      }
      var level1 := Info;
      if LEVEL in v.entries {
        var parsed := ParseLevel(v.entries[LEVEL]);
        if parsed.Err? {
          assert FaultAt(v, [], parsed.error);
          return Err(parsed.error);
        }
        level1 := parsed.value;
      }
      level := level1;
      children, tree, Repr := map[], Node(level, map[]), {this};
      r := FillChildren(v);
    }

    /** The loop of from_toml over the entries. */
    method FillChildren(v: Value) returns (r: Result<(), ConfigError>)
      requires Valid() && tree.children == map[] && v.Table?
      modifies this
      ensures Valid() && fresh(Repr - old(Repr)) && level == old(level)
      ensures r.Ok? <==> forall k :: k in v.entries && k != LEVEL ==> Accepted(v.entries[k])
      ensures r.Ok? ==> tree.children == map k | k in v.entries && k != LEVEL :: TreeOf(v.entries[k])
      ensures r.Err? ==> Faulty(v, r.error)
      decreases v, 0
    {
      hide Accepted, TreeOf, Faulty;
      var todo := v.entries.Keys;
      while todo != {}
        invariant todo <= v.entries.Keys
        invariant Valid() && fresh(Repr - old(Repr)) && level == old(level)
        invariant tree.children.Keys == v.entries.Keys - todo - {LEVEL}
        invariant forall k :: k in tree.children ==> Accepted(v.entries[k]) && tree.children[k] == TreeOf(v.entries[k])
        decreases todo
      {
        var key :| key in todo;
        todo := todo - {key};
        if key == LEVEL {
          continue;
        }
        r := AddChild(key, v.entries[key]);
        if r.Err? {
          ChildIsFaulty(v, key, r.error);
          return;
        }
      }
      r := Ok(());
    }

    /** One turn of the loop of from_toml: a new child, entered and then filled. */
    method AddChild(key: string, v: Value) returns (r: Result<(), ConfigError>)
      requires Valid()
      modifies this
      ensures Valid() && fresh(Repr - old(Repr)) && level == old(level)
      ensures r.Ok? <==> Accepted(v)
      ensures r.Err? ==> Faulty(v, r.error)
      ensures tree.level == level && tree.children.Keys == old(tree.children.Keys) + {key}
      ensures r.Ok? ==> tree.children == old(tree.children)[key := TreeOf(v)]
      decreases v, 2
    {
      var child := new LevelNode();
      r := child.FromToml(v);
      Adopt(key, child);
    }

    method Adopt(key: string, child: LevelNode)
      requires Valid() && child.Valid() && this !in child.Repr
      modifies this`children, this`tree, this`Repr
      ensures Valid() && Repr == old(Repr) + child.Repr
      ensures tree == Node(level, old(tree.children)[key := old(child.tree)])
    {
      children, tree, Repr := children[key := child], Node(level, tree.children[key := child.tree]), Repr + child.Repr;
    }

    /** get_level, which descends object by object. */
    method GetLevel(name: string) returns (r: Level)
      requires Valid()
      ensures r == LevelOf(tree, name)
      decreases |name|
    {
      if name == "" {
        return level;
      }
      var parent := Head(name);
      var child := Rest(name);
      if parent in children {
        r := children[parent].GetLevel(child);
      } else {
        r := level;
      }
    }
  }
}
