/** What src/core/cmdlineparser.cpp accepts, as a grammar, and its scanner (92-329) as a function. */
module CmdLineGrammar {
  import opened Bytes

  type Text = seq<byte>

  const DASH: byte := 45

  datatype ParamCount = ParamNone | ParamOne | ParamMany
  datatype ArgInfo = ArgInfo(mId: int, mNumParams: ParamCount)

  /** A switch with what was typed and its parameters; an empty mActualParam marks the final parameter list. */
  datatype ArgData = ArgData(mId: int, mActualParam: Text, mParams: seq<Text>)

  datatype Dependency = Dependency(first: int, second: int, mutual: bool)

  datatype Config = Config(table: map<Text, ArgInfo>, last: ArgInfo, mutEx: seq<(int, int)>,
                           dependencies: seq<Dependency>, multipleAllowed: set<int>)

  /** The exception thrown */
  datatype Failure = InvalidArg | MultiArg | BadParam | BadSwitchPos | BadArgParam | MutEx | Depends
  datatype Parsed = Good(data: seq<ArgData>) | Bad(failure: Failure)

  predicate Dashed(t: Text) { t != [] && t[0] == DASH }

  predicate AnyDashed(args: seq<Text>) { exists i :: 0 <= i < |args| && Dashed(args[i]) }

  predicate InList(data: seq<ArgData>, id: int) { exists k :: 0 <= k < |data| && data[k].mId == id }

  // ---- the grammar ----

  predicate IsFinal(d: ArgData) { d.mActualParam == [] }

  predicate Fits(n: ParamCount, params: seq<Text>) {
    !AnyDashed(params) && (n.ParamNone? ==> |params| == 0) && (n.ParamOne? ==> |params| == 1)
  }

  /** A registered switch with as many parameters as it was declared with */
  predicate IsSwitch(c: Config, d: ArgData) {
    && Dashed(d.mActualParam) && d.mActualParam[1..] in c.table
    && c.table[d.mActualParam[1..]].mId == d.mId && Fits(c.table[d.mActualParam[1..]].mNumParams, d.mParams)
  }

  predicate TakesMany(c: Config, d: ArgData) { IsSwitch(c, d) && c.table[d.mActualParam[1..]].mNumParams.ParamMany? }

  /** Switches only, none repeated unless that is allowed */
  ghost predicate Switches(c: Config, data: seq<ArgData>) {
    && (forall k :: 0 <= k < |data| ==> IsSwitch(c, data[k]))
    && (forall j, k :: 0 <= j < k < |data| && data[j].mId == data[k].mId ==> data[k].mId in c.multipleAllowed)
  }

  /** The parameters of the program: not empty, as many as declared, never right after a switch that takes any number */
  ghost predicate FinalList(c: Config, before: seq<ArgData>, d: ArgData) {
    && IsFinal(d) && d.mId == c.last.mId && d.mParams != [] && Fits(c.last.mNumParams, d.mParams)
    && (before != [] ==> !TakesMany(c, before[|before| - 1]))
  }

  ghost predicate Grammar(c: Config, data: seq<ArgData>) {
    if data != [] && IsFinal(data[|data| - 1]) then
      Switches(c, data[..|data| - 1]) && FinalList(c, data[..|data| - 1], data[|data| - 1])
    else
      Switches(c, data) && !c.last.mNumParams.ParamOne?
  }

  function Spelled(d: ArgData): seq<Text> { (if IsFinal(d) then [] else [d.mActualParam]) + d.mParams }

  function Flatten(data: seq<ArgData>): seq<Text> {
    if data == [] then [] else Flatten(data[..|data| - 1]) + Spelled(data[|data| - 1])
  }

  // ---- the scanner ----

  /** How many arguments before the next switch */
  function Plain(args: seq<Text>): (n: nat)
    ensures n <= |args| && !AnyDashed(args[..n]) && (n < |args| ==> Dashed(args[n]))
  {
    if args == [] || Dashed(args[0]) then 0 else 1 + Plain(args[1..])
  }

  function Scan(c: Config, args: seq<Text>, data: seq<ArgData>): Parsed
    decreases |args|
  {
    if args == [] then
      if c.last.mNumParams.ParamOne? then Bad(BadParam) else Good(data)
    else if Dashed(args[0]) then
      if args[0][1..] !in c.table then Bad(InvalidArg)
      else
        var info := c.table[args[0][1..]];
        if InList(data, info.mId) && info.mId !in c.multipleAllowed then Bad(MultiArg)
        else
          match info.mNumParams
          case ParamNone =>
            if |args| > 1 && !Dashed(args[1]) && AnyDashed(args[2..]) then Bad(BadParam)
            else Scan(c, args[1..], data + [ArgData(info.mId, args[0], [])])
          case ParamOne =>
            if |args| == 1 || Dashed(args[1]) then Bad(BadParam)
            else Scan(c, args[2..], data + [ArgData(info.mId, args[0], [args[1]])])
          case ParamMany =>
            var n := Plain(args[1..]);
            Scan(c, args[1 + n..], data + [ArgData(info.mId, args[0], args[1..1 + n])])
    else if c.last.mNumParams.ParamNone? || (c.last.mNumParams.ParamOne? && |args| != 1) then Bad(BadParam)
    else if AnyDashed(args) then Bad(if data == [] then BadSwitchPos else BadArgParam)
    else Good(data + [ArgData(c.last.mId, [], args)])
  }

  // ---- soundness ----

  lemma FlattenAppend(data: seq<ArgData>, d: ArgData)
    ensures Flatten(data + [d]) == Flatten(data) + Spelled(d)
  {
    assert (data + [d])[..|data|] == data;
  }

  lemma SwitchesAppend(c: Config, data: seq<ArgData>, d: ArgData)
    requires Switches(c, data) && IsSwitch(c, d) && (InList(data, d.mId) ==> d.mId in c.multipleAllowed)
    ensures Switches(c, data + [d])
  {}

  /** A parameter never comes right after a switch that would have taken it. */
  ghost predicate Greedy(c: Config, data: seq<ArgData>, args: seq<Text>) {
    args != [] && !Dashed(args[0]) && data != [] ==> !TakesMany(c, data[|data| - 1])
  }

  /** How many parameters the switch at the head of the arguments takes */
  function Taken(c: Config, args: seq<Text>): (n: nat)
    requires args != [] && Dashed(args[0]) && args[0][1..] in c.table
    ensures n <= |args|
  {
    match c.table[args[0][1..]].mNumParams case ParamNone => 0 case ParamOne => 1 case ParamMany => Plain(args[1..])
  }

  function Head(c: Config, args: seq<Text>): ArgData
    requires args != [] && Dashed(args[0]) && args[0][1..] in c.table && Taken(c, args) < |args|
  {
    ArgData(c.table[args[0][1..]].mId, args[0], args[1..1 + Taken(c, args)])
  }

  lemma ScanSwitch(c: Config, args: seq<Text>, data: seq<ArgData>)
    requires args != [] && Dashed(args[0]) && Scan(c, args, data).Good?
    ensures args[0][1..] in c.table && Taken(c, args) < |args|
    ensures var d := Head(c, args); IsSwitch(c, d) && (InList(data, d.mId) ==> d.mId in c.multipleAllowed)
    ensures Scan(c, args, data) == Scan(c, args[1 + Taken(c, args)..], data + [Head(c, args)])
    ensures Greedy(c, data + [Head(c, args)], args[1 + Taken(c, args)..])
  {
    var n := Taken(c, args);
    assert args[1..1 + n] == args[1..][..n];
    match c.table[args[0][1..]].mNumParams {
      case ParamNone => assert args[1..1 + n] == [];
      case ParamOne => assert args[1..1 + n] == [args[1]];
      case ParamMany => if n < |args[1..]| { assert args[1..][n] == args[1 + n..][0]; }
    }
  }

  lemma GrammarOfSwitches(c: Config, data: seq<ArgData>)
    requires Switches(c, data) && !c.last.mNumParams.ParamOne?
    ensures Grammar(c, data)
  {
    assert data != [] ==> IsSwitch(c, data[|data| - 1]);
  }

  lemma GrammarOfFinal(c: Config, data: seq<ArgData>, d: ArgData)
    requires Switches(c, data) && FinalList(c, data, d)
    ensures Grammar(c, data + [d])
  {
    assert (data + [d])[..|data|] == data;
  }

  lemma Regroup(front: seq<Text>, args: seq<Text>, n: nat)
    requires n < |args|
    ensures front + ([args[0]] + args[1..1 + n]) + args[1 + n..] == front + args
  {}

  /** What is accepted is in the grammar, and spells the arguments. */
  lemma {:induction false} ScanSound(c: Config, args: seq<Text>, data: seq<ArgData>)
    requires Switches(c, data) && Greedy(c, data, args) && Scan(c, args, data).Good?
    ensures Grammar(c, Scan(c, args, data).data) && Flatten(Scan(c, args, data).data) == Flatten(data) + args
    decreases |args|
  {
    hide Switches, Grammar, Flatten, IsSwitch, InList, TakesMany;
    if args == [] {
      GrammarOfSwitches(c, data);
    } else if Dashed(args[0]) {
      ScanSwitch(c, args, data);
      var n, d := Taken(c, args), Head(c, args);
      hide Scan, Taken;
      SwitchesAppend(c, data, d);
      FlattenAppend(data, d);
      ScanSound(c, args[1 + n..], data + [d]);
      Regroup(Flatten(data), args, n);
    } else {
      var d := ArgData(c.last.mId, [], args);
      FlattenAppend(data, d);
      GrammarOfFinal(c, data, d);
    }
  }

  // ---- completeness ----

  lemma {:induction false} FlattenConcat(a: seq<ArgData>, b: seq<ArgData>)
    ensures Flatten(a + b) == Flatten(a) + Flatten(b)
  {
    hide Spelled;
    if b == [] {
      assert a + b == a;
    } else {
      var n := |b| - 1;
      FlattenConcat(a, b[..n]);
      FlattenAppend(a + b[..n], b[n]);
      assert a + b == a + b[..n] + [b[n]];
      Associate(Flatten(a), Flatten(b[..n]), Spelled(b[n]));
    }
  }

  lemma Associate<T>(a: seq<T>, b: seq<T>, c: seq<T>)
    ensures a + b + c == a + (b + c)
  {}

  lemma FlattenFrom(data: seq<ArgData>, k: nat)
    requires k < |data|
    ensures Flatten(data[k..]) == Spelled(data[k]) + Flatten(data[k + 1..])
  {
    assert data[k..] == [data[k]] + data[k + 1..];
    FlattenConcat([data[k]], data[k + 1..]);
    assert [data[k]][..0] == [];
    assert Flatten([data[k]]) == [] + Spelled(data[k]);
  }

  lemma NoneDashed(s: seq<Text>, i: nat)
    requires !AnyDashed(s) && i <= |s|
    ensures !AnyDashed(s[i..])
  {
    forall j | 0 <= j < |s[i..]| ensures !Dashed(s[i..][j]) { assert s[i..][j] == s[i + j]; }
  }

  lemma {:induction false} PlainIs(params: seq<Text>, rest: seq<Text>)
    requires !AnyDashed(params) && (rest == [] || Dashed(rest[0]))
    ensures Plain(params + rest) == |params|
  {
    if params == [] {
      assert params + rest == rest;
    } else {
      assert !Dashed(params[0]);
      NoneDashed(params, 1);
      PlainIs(params[1..], rest);
      assert (params + rest)[1..] == params[1..] + rest;
    }
  }

  /** The switches come first. */
  ghost function SwitchCount(data: seq<ArgData>): (n: nat)
    ensures n <= |data|
  {
    if data != [] && IsFinal(data[|data| - 1]) then |data| - 1 else |data|
  }

  lemma SwitchAt(c: Config, data: seq<ArgData>, k: nat)
    requires Grammar(c, data) && k < SwitchCount(data)
    ensures IsSwitch(c, data[k]) && (InList(data[..k], data[k].mId) ==> data[k].mId in c.multipleAllowed)
  {
    var n := SwitchCount(data);
    assert data[..n][k] == data[k];
    if InList(data[..k], data[k].mId) {
      var j :| 0 <= j < |data[..k]| && data[..k][j].mId == data[k].mId;
      assert data[..n][j].mId == data[..n][k].mId;
    }
  }

  /** After a switch come the end, the next switch, or a final list that the switch does not take. */
  lemma WhatFollows(c: Config, data: seq<ArgData>, k: nat)
    requires Grammar(c, data) && k < SwitchCount(data)
    ensures var rest := Flatten(data[k + 1..]);
            rest == [] || Dashed(rest[0]) || (!AnyDashed(rest) && !TakesMany(c, data[k]))
  {
    if k + 1 < SwitchCount(data) {
      SwitchAt(c, data, k + 1);
      FlattenFrom(data, k + 1);
    } else if k + 1 < |data| {
      FlattenFrom(data, k + 1);
      assert data[k + 2..] == [];
      assert Flatten(data[k + 1..]) == data[k + 1].mParams;
      assert data[..|data| - 1][k] == data[k];
    }
  }

  lemma ScanStep(c: Config, data: seq<ArgData>, k: nat)
    requires Grammar(c, data) && k < SwitchCount(data)
    ensures Scan(c, Flatten(data[k..]), data[..k]) == Scan(c, Flatten(data[k + 1..]), data[..k + 1])
  {
    hide Grammar, Flatten;
    SwitchAt(c, data, k);
    WhatFollows(c, data, k);
    FlattenFrom(data, k);
    var d, rest, args := data[k], Flatten(data[k + 1..]), Flatten(data[k..]);
    assert args == [d.mActualParam] + d.mParams + rest;
    assert args[1..] == d.mParams + rest;
    assert data[..k + 1] == data[..k] + [d];
    StepHead(c, args, data[..k], d, rest);
  }

  /** What may come after the parameters of a switch */
  predicate Follows(n: ParamCount, rest: seq<Text>) {
    n.ParamOne? || rest == [] || Dashed(rest[0]) || (n.ParamNone? && !AnyDashed(rest))
  }

  lemma StepHead(c: Config, args: seq<Text>, before: seq<ArgData>, d: ArgData, rest: seq<Text>)
    requires IsSwitch(c, d) && args == [d.mActualParam] + d.mParams + rest && args[1..] == d.mParams + rest
    requires InList(before, d.mId) ==> d.mId in c.multipleAllowed
    requires Follows(c.table[d.mActualParam[1..]].mNumParams, rest)
    ensures Scan(c, args, before) == Scan(c, rest, before + [d])
  {
    match c.table[d.mActualParam[1..]].mNumParams {
      case ParamNone =>
        assert args[1..] == rest;
        if rest != [] && !Dashed(rest[0]) {
          NoneDashed(rest, 1);
          assert args[2..] == rest[1..];
        }
      case ParamOne =>
        assert args[1] == d.mParams[0] && !Dashed(d.mParams[0]);
        assert args[2..] == rest && d.mParams == [args[1]];
      case ParamMany =>
        PlainIs(d.mParams, rest);
        assert args[1 + |d.mParams|..] == rest && args[1..1 + |d.mParams|] == d.mParams;
    }
  }

  lemma StepFails(c: Config, args: seq<Text>, before: seq<ArgData>)
    requires args != [] && Dashed(args[0])
    ensures args[0][1..] !in c.table ==> Scan(c, args, before) == Bad(InvalidArg)
    ensures args[0][1..] in c.table ==>
              var info := c.table[args[0][1..]];
              if InList(before, info.mId) && info.mId !in c.multipleAllowed then Scan(c, args, before) == Bad(MultiArg)
              else
                && (info.mNumParams.ParamNone? && !Follows(ParamNone, args[1..]) ==>
                      Scan(c, args, before) == Bad(BadParam))
                && (info.mNumParams.ParamOne? && (|args| == 1 || Dashed(args[1])) ==>
                      Scan(c, args, before) == Bad(BadParam))
  {
    if |args| > 1 && !Dashed(args[1]) && AnyDashed(args[1..]) {
      var i :| 0 <= i < |args[1..]| && Dashed(args[1..][i]);
      assert args[2..][i - 1] == args[1..][i];
    }
  }

  /** Every list in the grammar is what its own spelling is scanned to. */
  lemma {:induction false} ScanComplete(c: Config, data: seq<ArgData>, k: nat)
    requires Grammar(c, data) && k <= SwitchCount(data)
    ensures Scan(c, Flatten(data[k..]), data[..k]) == Good(data)
    decreases |data| - k
  {
    if k < SwitchCount(data) {
      ScanStep(c, data, k);
      ScanComplete(c, data, k + 1);
    } else if k < |data| {
      FlattenFrom(data, k);
      assert data[k + 1..] == [] && data[..k] + [data[k]] == data;
      var args := data[k].mParams;
      assert Flatten(data[k..]) == args;
      assert !Dashed(args[0]);
      assert data[k] == ArgData(c.last.mId, [], args);
    } else {
      assert data[k..] == [] && data[..k] == data;
    }
  }

  /** The scanner accepts exactly the grammar: a list is its result if and only if it is in the grammar and spells
      the arguments. */
  lemma ScanIsGrammar(c: Config, args: seq<Text>, data: seq<ArgData>)
    ensures Scan(c, args, []) == Good(data) <==> Grammar(c, data) && Flatten(data) == args
  {
    if Scan(c, args, []) == Good(data) {
      ScanSound(c, args, []);
      assert Flatten([]) + args == args;
    }
    if Grammar(c, data) && Flatten(data) == args {
      ScanComplete(c, data, 0);
      assert data[0..] == data && data[..0] == [];
    }
  }

  // ---- relations between switches ----

  predicate Excluded(data: seq<ArgData>, pair: (int, int)) { InList(data, pair.0) && InList(data, pair.1) }

  predicate Holds(data: seq<ArgData>, d: Dependency) {
    && (InList(data, d.first) ==> InList(data, d.second))
    && (d.mutual && InList(data, d.second) ==> InList(data, d.first))
  }

  function Outcome(c: Config, args: seq<Text>): Parsed {
    var r := Scan(c, args, []);
    if r.Bad? then r
    else if exists k :: 0 <= k < |c.mutEx| && Excluded(r.data, c.mutEx[k]) then Bad(MutEx)
    else if exists k :: 0 <= k < |c.dependencies| && !Holds(r.data, c.dependencies[k]) then Bad(Depends)
    else r
  }

  /** A command line is accepted with a list exactly when the list is in the grammar, spells the command line, and
      keeps every relation. */
  lemma Accepted(c: Config, args: seq<Text>, data: seq<ArgData>)
    ensures Outcome(c, args) == Good(data) <==>
            && Grammar(c, data) && Flatten(data) == args
            && (forall k :: 0 <= k < |c.mutEx| ==> !(InList(data, c.mutEx[k].0) && InList(data, c.mutEx[k].1)))
            && (forall k :: 0 <= k < |c.dependencies| ==>
                  var d := c.dependencies[k];
                  && (InList(data, d.first) ==> InList(data, d.second))
                  && (d.mutual && InList(data, d.second) ==> InList(data, d.first)))
  {
    ScanIsGrammar(c, args, data);
  }
}
