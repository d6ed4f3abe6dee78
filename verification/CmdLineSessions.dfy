/** Whole uses of cCmdLineParser: what was declared decides how a command line is read. */
module CmdLineSessions {
  import opened CmdLineGrammar
  import opened CmdLineParser
  import HashTable

  /** The two ways to type a switch: its name after a dash, or its alias after two */
  predicate Typed(arg: Text, alias: Text, t: Text) {
    (arg != [] && t == [45] + arg) || (alias != [] && t == [45, 45] + alias)
  }

  /** None of the arguments starts with a dash. */
  predicate Undashed(params: seq<Text>) { forall i :: 0 <= i < |params| && params[i] != [] ==> params[i][0] != 45 }

  /** As many as declared */
  predicate Many(n: ParamCount, count: nat) { (n.ParamNone? ==> count == 0) && (n.ParamOne? ==> count == 1) }

  // ---- what the scanner makes of one or two switches ----

  lemma UndashedIs(params: seq<Text>)
    requires Undashed(params)
    ensures !AnyDashed(params)
    ensures params != [] ==> Undashed(params[1..])
  {}

  lemma NoMore(c: Config, data: seq<ArgData>)
    requires c.last.mNumParams.ParamNone?
    ensures Scan(c, [], data) == Good(data)
  {}

  lemma TooMany(c: Config, params: seq<Text>, data: seq<ArgData>)
    requires c.last.mNumParams.ParamNone? && Undashed(params) && params != []
    ensures Scan(c, params, data) == Bad(BadParam)
  {}

  lemma ScanOneSwitch(c: Config, t: Text, info: ArgInfo, params: seq<Text>)
    requires c.last.mNumParams.ParamNone? && Undashed(params)
    requires Dashed(t) && t[1..] in c.table && c.table[t[1..]] == info
    ensures Scan(c, [t] + params, []) ==
            if Many(info.mNumParams, |params|) then Good([ArgData(info.mId, t, params)]) else Bad(BadParam)
  {
    var args := [t] + params;
    assert args[1..] == params;
    UndashedIs(params);
    hide Scan, Plain;
    var d := ArgData(info.mId, t, params);
    assert [] + [d] == [d];
    match info.mNumParams {
      case ParamNone =>
        ScanNone(c, args);
        if params == [] { NoMore(c, [d]); } else { TooMany(c, params, [ArgData(info.mId, t, [])]); }
      case ParamOne =>
        if params == [] {
          StepFails(c, args, []);
        } else {
          ScanOne(c, args);
          assert args[2..] == params[1..] && args[1] == params[0];
          if params[1..] == [] {
            assert params == [params[0]];
            NoMore(c, [d]);
          } else {
            TooMany(c, params[1..], [ArgData(info.mId, t, [params[0]])]);
          }
        }
      case ParamMany =>
        PlainIs(params, []);
        assert params + [] == params;
        ScanMany(c, args);
        assert args[1 + |params|..] == [] && args[1..1 + |params|] == params;
        NoMore(c, [d]);
    }
  }

  lemma ScanNone(c: Config, args: seq<Text>)
    requires args != [] && Dashed(args[0]) && args[0][1..] in c.table && c.table[args[0][1..]].mNumParams.ParamNone?
    requires !AnyDashed(args[1..])
    ensures Scan(c, args, []) == Scan(c, args[1..], [ArgData(c.table[args[0][1..]].mId, args[0], [])])
  {
    assert forall i :: 0 <= i < |args| - 2 ==> args[2..][i] == args[1..][i + 1];
    assert [] + [ArgData(c.table[args[0][1..]].mId, args[0], [])] == [ArgData(c.table[args[0][1..]].mId, args[0], [])];
  }

  lemma ScanOne(c: Config, args: seq<Text>)
    requires |args| > 1 && Dashed(args[0]) && args[0][1..] in c.table && c.table[args[0][1..]].mNumParams.ParamOne?
    requires !Dashed(args[1])
    ensures Scan(c, args, []) == Scan(c, args[2..], [ArgData(c.table[args[0][1..]].mId, args[0], [args[1]])])
  {
    var d := ArgData(c.table[args[0][1..]].mId, args[0], [args[1]]);
    assert [] + [d] == [d];
  }

  lemma ScanMany(c: Config, args: seq<Text>)
    requires args != [] && Dashed(args[0]) && args[0][1..] in c.table && c.table[args[0][1..]].mNumParams.ParamMany?
    ensures var n := Plain(args[1..]);
            Scan(c, args, []) == Scan(c, args[1 + n..], [ArgData(c.table[args[0][1..]].mId, args[0], args[1..1 + n])])
  {
    var d := ArgData(c.table[args[0][1..]].mId, args[0], args[1..1 + Plain(args[1..])]);
    assert [] + [d] == [d];
  }

  /** Two switches without parameters, one after the other */
  lemma ScanTwoSwitches(c: Config, t: Text, u: Text)
    requires c.last.mNumParams.ParamNone? && Dashed(t) && Dashed(u) && t[1..] in c.table && u[1..] in c.table
    requires c.table[t[1..]].mNumParams.ParamNone? && c.table[u[1..]].mNumParams.ParamNone?
    ensures var i, j := c.table[t[1..]].mId, c.table[u[1..]].mId;
            Scan(c, [t, u], []) == if i == j && i !in c.multipleAllowed then Bad(MultiArg)
                                   else Good([ArgData(i, t, []), ArgData(j, u, [])])
  {
    var i, j := c.table[t[1..]].mId, c.table[u[1..]].mId;
    var d, e := ArgData(i, t, []), ArgData(j, u, []);
    assert [t, u][1..] == [u] && [u][1..] == [];
    assert [] + [d] == [d] && [d] + [e] == [d, e];
    assert InList([d], j) <==> i == j by { assert [d][0].mId == i; }
    NoMore(c, [d, e]);
    assert Scan(c, [u], [d]) == if i == j && j !in c.multipleAllowed then Bad(MultiArg) else Good([d, e]);
  }

  // ---- the sessions ----

  /** One switch, typed in either way, with arguments that are not switches: accepted with them exactly when there are
      as many as declared. */
  method OneSwitch(prog: Text, id: int, arg: Text, alias: Text, n: ParamCount, t: Text, params: seq<Text>)
    returns (r: Parsed)
    requires Typed(arg, alias, t) && Undashed(params)
    ensures r == if Many(n, |params|) then Good([ArgData(id, t, params)]) else Bad(BadParam)
  {
    hide Scan, HashTable.Hashed, HashTable.Holds, HashTable.Chain, HashTable.At;
    var parser := new CmdLineParser();
    parser.AddArg(id, arg, alias, n, false);
    assert ([prog, t] + params)[1..] == [t] + params;
    TypedKey(arg, alias, t);
    ScanOneSwitch(parser.Settings(), t, ArgInfo(id, n), params);
    r := parser.Parse([prog, t] + params);
  }

  lemma TypedKey(arg: Text, alias: Text, t: Text)
    requires Typed(arg, alias, t)
    ensures Dashed(t) && ((arg != [] && t[1..] == arg) || (alias != [] && t[1..] == [45] + alias))
  {}

  /** The same switch twice: accepted exactly when it was declared to be allowed. */
  method SwitchTwice(prog: Text, id: int, arg: Text, alias: Text, multipleAllowed: bool, t: Text, u: Text)
    returns (r: Parsed)
    requires Typed(arg, alias, t) && Typed(arg, alias, u)
    ensures r == if multipleAllowed then Good([ArgData(id, t, []), ArgData(id, u, [])]) else Bad(MultiArg)
  {
    hide Scan, HashTable.Hashed, HashTable.Holds, HashTable.Chain, HashTable.At;
    var parser := new CmdLineParser();
    parser.AddArg(id, arg, alias, ParamNone, multipleAllowed);
    assert [prog, t, u][1..] == [t, u];
    TypedKey(arg, alias, t);
    TypedKey(arg, alias, u);
    ScanTwoSwitches(parser.Settings(), t, u);
    r := parser.Parse([prog, t, u]);
  }

  /** A switch that was not declared */
  method UndeclaredSwitch(prog: Text, t: Text, params: seq<Text>) returns (r: Parsed)
    requires t != [] && t[0] == 45
    ensures r == Bad(InvalidArg)
  {
    var parser := new CmdLineParser();
    assert ([prog, t] + params)[1..] == [t] + params;
    r := parser.Parse([prog, t] + params);
  }

  /** The parameters of the program alone: none, one, or any number, as declared */
  method FinalParameters(prog: Text, id: int, n: ParamCount, params: seq<Text>) returns (r: Parsed)
    requires Undashed(params)
    ensures r == if !Many(n, |params|) then Bad(BadParam)
                 else if params == [] then Good([]) else Good([ArgData(id, [], params)])
  {
    var parser := new CmdLineParser();
    parser.AddArg(id, [], [], n, false);
    assert ([prog] + params)[1..] == params;
    UndashedIs(params);
    assert [] + [ArgData(id, [], params)] == [ArgData(id, [], params)];
    r := parser.Parse([prog] + params);
  }

  /** A parameter of the program before a switch: at the very start, and after a switch that has its one parameter */
  method MisplacedParameter(prog: Text, id: int, arg: Text, x: Text, y: Text) returns (r: Parsed, q: Parsed)
    requires arg != [] && Undashed([x, y])
    ensures r == Bad(BadSwitchPos) && q == Bad(BadArgParam)
  {
    hide HashTable.Hashed, HashTable.Holds, HashTable.Chain, HashTable.At, Scan;
    var parser := new CmdLineParser();
    parser.AddArg(id, arg, [], ParamOne, true);
    parser.AddArg(-2, [], [], ParamMany, false);
    var t := [45] + arg;
    assert t[1..] == arg && !Dashed([x, y][0]) && !Dashed([x, y][1]);
    assert [prog, x, t][1..] == [x, t] && [prog, t, y, x, t][1..] == [t, y, x, t] && [t, y, x, t][2..] == [x, t];
    ghost var c := parser.Settings();
    assert Dashed([x, t][1]) && AnyDashed([x, t]);
    FinalFails(c, [x, t], []);
    ScanOne(c, [t, y, x, t]);
    FinalFails(c, [x, t], [ArgData(id, t, [y])]);
    r := parser.Parse([prog, x, t]);
    q := parser.Parse([prog, t, y, x, t]);
  }

  lemma FinalFails(c: Config, args: seq<Text>, data: seq<ArgData>)
    requires args != [] && !Dashed(args[0]) && AnyDashed(args) && c.last.mNumParams.ParamMany?
    ensures Scan(c, args, data) == Bad(if data == [] then BadSwitchPos else BadArgParam)
  {}

  /** Which of two switches were typed */
  function TypedOf(a: Text, b: Text, first: bool, second: bool): seq<Text> {
    (if first then [[45] + a] else []) + if second then [[45] + b] else []
  }

  function DataOf(a: Text, b: Text, i: int, j: int, first: bool, second: bool): seq<ArgData> {
    (if first then [ArgData(i, [45] + a, [])] else []) + if second then [ArgData(j, [45] + b, [])] else []
  }

  lemma ScanPair(c: Config, a: Text, b: Text, i: int, j: int, first: bool, second: bool)
    requires c.last.mNumParams.ParamNone? && a in c.table && b in c.table && i != j
    requires c.table[a] == ArgInfo(i, ParamNone) && c.table[b] == ArgInfo(j, ParamNone)
    ensures Scan(c, TypedOf(a, b, first, second), []) == Good(DataOf(a, b, i, j, first, second))
    ensures InList(DataOf(a, b, i, j, first, second), i) == first
    ensures InList(DataOf(a, b, i, j, first, second), j) == second
  {
    var t, u := [45] + a, [45] + b;
    assert t[1..] == a && u[1..] == b;
    var data := DataOf(a, b, i, j, first, second);
    if first { assert data[0].mId == i; }
    if second { assert data[|data| - 1].mId == j; }
    hide Scan;
    if first && second {
      ScanTwoSwitches(c, t, u);
      assert TypedOf(a, b, first, second) == [t, u];
    } else if first {
      ScanOneSwitch(c, t, ArgInfo(i, ParamNone), []);
      assert TypedOf(a, b, first, second) == [t] + [];
    } else if second {
      ScanOneSwitch(c, u, ArgInfo(j, ParamNone), []);
      assert TypedOf(a, b, first, second) == [u] + [];
    } else {
      NoMore(c, []);
    }
  }

  function PairTable(a: Text, b: Text, i: int, j: int): map<Text, ArgInfo> {
    map[a := ArgInfo(i, ParamNone)][b := ArgInfo(j, ParamNone)]
  }

  function PairConfig(a: Text, b: Text, i: int, j: int, mutEx: seq<(int, int)>, ds: seq<Dependency>): Config {
    Config(PairTable(a, b, i, j), ArgInfo(-1, ParamNone), mutEx, ds, {})
  }

  method PairParser(a: Text, b: Text, i: int, j: int) returns (parser: CmdLineParser)
    requires a != [] && b != []
    ensures parser.Valid() && fresh(parser) && parser.Settings() == PairConfig(a, b, i, j, [], [])
  {
    hide HashTable.Hashed, HashTable.Holds, HashTable.Chain, HashTable.At;
    parser := new CmdLineParser();
    parser.AddArg(i, a, [], ParamNone, false);
    parser.AddArg(j, b, [], ParamNone, false);
  }

  lemma OutcomeOfPair(a: Text, b: Text, i: int, j: int, first: bool, second: bool, mutual: bool)
    requires a != [] && b != [] && a != b && i != j
    ensures Outcome(PairConfig(a, b, i, j, [(i, j)], []), TypedOf(a, b, first, second)) ==
            if first && second then Bad(MutEx) else Good(DataOf(a, b, i, j, first, second))
    ensures Outcome(PairConfig(a, b, i, j, [], [Dependency(i, j, mutual)]), TypedOf(a, b, first, second)) ==
            if (first && !second) || (mutual && second && !first) then Bad(Depends)
            else Good(DataOf(a, b, i, j, first, second))
  {
    hide Scan, InList;
    var excluding := PairConfig(a, b, i, j, [(i, j)], []);
    var depending := PairConfig(a, b, i, j, [], [Dependency(i, j, mutual)]);
    ScanPair(excluding, a, b, i, j, first, second);
    ScanPair(depending, a, b, i, j, first, second);
    assert excluding.mutEx[0] == (i, j) && depending.dependencies[0] == Dependency(i, j, mutual);
  }

  /** Two switches that exclude each other: rejected exactly when both are typed. */
  method ExclusivePair(prog: Text, a: Text, b: Text, i: int, j: int, first: bool, second: bool) returns (r: Parsed)
    requires a != [] && b != [] && a != b && i != j
    ensures r == if first && second then Bad(MutEx) else Good(DataOf(a, b, i, j, first, second))
  {
    hide Outcome, PairTable, TypedOf, DataOf;
    var parser := PairParser(a, b, i, j);
    parser.AddMutEx(i, j);
    OutcomeOfPair(a, b, i, j, first, second, false);
    assert ([prog] + TypedOf(a, b, first, second))[1..] == TypedOf(a, b, first, second);
    assert parser.Settings() == PairConfig(a, b, i, j, [(i, j)], []);
    r := parser.Parse([prog] + TypedOf(a, b, first, second));
  }

  /** A switch that depends on another: rejected exactly when it is typed without it, and if the dependency is mutual
      also the other way round. */
  method DependentPair(prog: Text, a: Text, b: Text, i: int, j: int, mutual: bool, first: bool, second: bool)
    returns (r: Parsed)
    requires a != [] && b != [] && a != b && i != j
    ensures r == if (first && !second) || (mutual && second && !first) then Bad(Depends)
                 else Good(DataOf(a, b, i, j, first, second))
  {
    hide Outcome, PairTable, TypedOf, DataOf;
    var parser := PairParser(a, b, i, j);
    parser.AddDependency(i, j, mutual);
    OutcomeOfPair(a, b, i, j, first, second, mutual);
    assert ([prog] + TypedOf(a, b, first, second))[1..] == TypedOf(a, b, first, second);
    assert parser.Settings() == PairConfig(a, b, i, j, [], [Dependency(i, j, mutual)]);
    r := parser.Parse([prog] + TypedOf(a, b, first, second));
  }
}
