/** cCmdLineParser and cCmdLineIter of src/core/cmdlineparser.cpp, against the grammar. */
module CmdLineParser {
  import opened CmdLineGrammar
  import HashTable
  import opened Wrappers

  class CmdLineIter {
    const mList: seq<ArgData>
    var mIter: nat

    constructor (list: seq<ArgData>)
      ensures mList == list && mIter == 0
    {
      mList, mIter := list, 0;
    }

    predicate Done()
      reads this
    {
      mIter >= |mList|
    }

    method SeekToArg(argId: int) returns (found: bool)
      modifies this
      ensures found == InList(mList, argId) && found == !Done()
    {
      mIter := 0;
      while mIter < |mList|
        invariant forall k :: 0 <= k < mIter && k < |mList| ==> mList[k].mId != argId
      {
        if mList[mIter].mId == argId { return true; }
        mIter := mIter + 1;
      }
      return false;
    }
  }

  class CmdLineParser {
    const mArgTable: HashTable.HashTable<ArgInfo>
    var mLastArgInfo: ArgInfo
    var mArgData: seq<ArgData>
    var mMutExList: seq<(int, int)>
    var mDependencyList: seq<Dependency>
    var mMultipleAllowed: set<int>

    ghost predicate Valid()
      reads this, mArgTable, mArgTable.mTable, mArgTable.nodes
    {
      mArgTable.Valid()
    }

    ghost function Settings(): Config
      reads this, mArgTable
    {
      Config(mArgTable.contents, mLastArgInfo, mMutExList, mDependencyList, mMultipleAllowed)
    }

    constructor ()
      ensures Valid() && fresh(mArgTable) && fresh(mArgTable.mTable) && fresh(mArgTable.nodes)
      ensures Settings() == Config(map[], ArgInfo(-1, ParamNone), [], [], {})
    {
      mArgTable := new HashTable.HashTable(17);
      mLastArgInfo := ArgInfo(-1, ParamNone);
      mArgData, mMutExList, mDependencyList, mMultipleAllowed := [], [], [], {};
    }

    /** A switch under its short name, and under its long one with the second dash; without a name, the final list. */
    method AddArg(argId: int, arg: Text, alias: Text, numParams: ParamCount, multipleAllowed: bool)
      requires Valid()
      modifies this, mArgTable, mArgTable.mTable, mArgTable.nodes
      ensures Valid() && Settings() == Declared(old(Settings()), argId, arg, alias, numParams, multipleAllowed)
      ensures mArgTable.mTable == old(mArgTable.mTable)
      ensures forall n :: n in mArgTable.nodes ==> n in old(mArgTable.nodes) || fresh(n)
    {
      hide HashTable.Hashed, HashTable.Holds, HashTable.Chain, HashTable.At;
      if |arg| == 0 && |alias| == 0 {
        mLastArgInfo := ArgInfo(argId, numParams);
        return;
      }
      if |arg| != 0 {
        var _ := mArgTable.Insert(arg, ArgInfo(argId, numParams));
      }
      if |alias| != 0 {
        var _ := mArgTable.Insert([DASH] + alias, ArgInfo(argId, numParams));
      }
      if multipleAllowed { mMultipleAllowed := mMultipleAllowed + {argId}; }
    }

    method AddMutEx(argId1: int, argId2: int)
      modifies this`mMutExList
      ensures mMutExList == old(mMutExList) + [(argId1, argId2)]
    {
      mMutExList := mMutExList + [(argId1, argId2)];
    }

    method AddDependency(argId1: int, argId2: int, mutual: bool)
      modifies this`mDependencyList
      ensures mDependencyList == old(mDependencyList) + [Dependency(argId1, argId2, mutual)]
    {
      mDependencyList := mDependencyList + [Dependency(argId1, argId2, mutual)];
    }

    method ArgInList(argId: int) returns (found: bool)
      ensures found == InList(mArgData, argId)
    {
      for i := 0 to |mArgData|
        invariant forall k :: 0 <= k < i ==> mArgData[k].mId != argId
      {
        if mArgData[i].mId == argId { return true; }
      }
      return false;
    }

    /** Parses argv[1..]; on success the parsed list is left in mArgData. */
    method Parse(argv: seq<Text>) returns (r: Parsed)
      requires Valid()
      modifies this`mArgData
      ensures r == Outcome(Settings(), if argv == [] then [] else argv[1..])
      ensures r.Good? ==> mArgData == r.data
    {
      hide Scan;
      mArgData := [];
      var pCurArg, bProcessedFinalParams := false, false;
      ghost var args := if argv == [] then [] else argv[1..];
      var i := 1;
      while i < |argv|
        invariant 1 <= i && (bProcessedFinalParams ==> i >= |argv| && Scan(Settings(), args, []) == Good(mArgData))
        invariant !bProcessedFinalParams ==> pCurArg == (mArgData != []) && (i <= |argv| || argv == [])
        invariant !bProcessedFinalParams ==>
                    Scan(Settings(), args, []) == Scan(Settings(), if i <= |argv| then argv[i..] else [], mArgData)
      {
        var failed: Option<Failure>;
        if Dashed(argv[i]) {
          pCurArg := true;
          failed, i := ParseSwitch(argv, i);
        } else {
          bProcessedFinalParams := true;
          failed, i := ParseFinal(argv, i, pCurArg);
        }
        if failed.Some? { return Bad(failed.value); }
        i := i + 1;
      }
      assert i == |argv| ==> argv[i..] == [];
      if !bProcessedFinalParams { ScanEnd(Settings(), mArgData); }
      if !bProcessedFinalParams && mLastArgInfo.mNumParams.ParamOne? { return Bad(BadParam); }
      var excluded := TestMutEx();
      if excluded { return Bad(MutEx); }
      var broken := TestDependency();
      if broken { return Bad(Depends); }
      return Good(mArgData);
    }

    /** One switch and its parameters; the index returned is that of the last argument used. */
    method ParseSwitch(argv: seq<Text>, at: nat) returns (failed: Option<Failure>, i: nat)
      requires Valid() && at < |argv| && Dashed(argv[at])
      modifies this`mArgData
      ensures failed.Some? ==> Scan(Settings(), argv[at..], old(mArgData)) == Bad(failed.value)
      ensures failed.None? ==> at <= i < |argv| && mArgData != []
                               && Scan(Settings(), argv[at..], old(mArgData))
                                  == Scan(Settings(), argv[i + 1..], mArgData)
    {
      hide Scan, InList, Fits, Follows, WithParams, HashTable.Hashed, HashTable.Holds, HashTable.Chain, HashTable.At;
      i := at;
      StepFails(Settings(), argv[at..], mArgData);
      var known, argInfo := mArgTable.Lookup(argv[i][1..], ArgInfo(-1, ParamNone));
      if !known { return Some(InvalidArg), i; }
      var seen := ArgInList(argInfo.mId);
      if seen && argInfo.mId !in mMultipleAllowed { return Some(MultiArg), i; }
      mArgData := mArgData + [ArgData(argInfo.mId, argv[i], [])];
      var ok: bool;
      ok, i := ParseParams(argv, at, argInfo.mNumParams);
      if !ok { return Some(BadParam), i; }
      SwitchRead(Settings(), argv, at, i, old(mArgData));
      return None, i;
    }

    /** The parameters that the last entry of the list is declared to take */
    method ParseParams(argv: seq<Text>, at: nat, n: ParamCount) returns (ok: bool, i: nat)
      requires at < |argv| && mArgData != [] && mArgData[|mArgData| - 1].mParams == []
      modifies this`mArgData
      ensures !ok ==> (n.ParamNone? && !Follows(ParamNone, argv[at + 1..]))
                      || (n.ParamOne? && (at + 1 == |argv| || Dashed(argv[at + 1])))
      ensures ok ==> at <= i < |argv| && Fits(n, argv[at + 1..i + 1]) && Follows(n, argv[i + 1..])
      ensures ok ==> mArgData == WithParams(old(mArgData), argv[at + 1..i + 1])
    {
      i := at;
      SameParams(mArgData);
      assert argv[at + 1..at + 1] == [];
      match n {
        case ParamNone =>
          if i + 1 < |argv| && !Dashed(argv[i + 1]) {
            ghost var rest := argv[at + 1..];
            for j := i + 2 to |argv|
              invariant forall k :: 0 <= k < j - at - 1 ==> !Dashed(rest[k])
            {
              if Dashed(argv[j]) {
                assert Dashed(rest[j - at - 1]);
                return false, i;
              }
            }
          }
        case ParamOne =>
          i := i + 1;
          if i >= |argv| || Dashed(argv[i]) { return false, i; }
          PushParam(argv[i]);
          assert argv[at + 1..i + 1] == [] + [argv[i]];
        case ParamMany =>
          i := i + 1;
          i := PushPlain(argv, i);
          i := i - 1;
      }
      return true, i;
    }

    /** Pushes arguments up to the next switch. */
    method PushPlain(argv: seq<Text>, at: nat) returns (i: nat)
      requires at <= |argv| && mArgData != [] && mArgData[|mArgData| - 1].mParams == []
      modifies this`mArgData
      ensures at <= i <= |argv| && !AnyDashed(argv[at..i]) && (i < |argv| ==> Dashed(argv[i]))
      ensures mArgData == WithParams(old(mArgData), argv[at..i])
    {
      SameParams(mArgData);
      assert argv[at..at] == [];
      i := at;
      while i < |argv| && !Dashed(argv[i])
        invariant at <= i <= |argv| && forall k :: at <= k < i ==> !Dashed(argv[k])
        invariant mArgData == WithParams(old(mArgData), argv[at..i])
      {
        PushParam(argv[i]);
        assert argv[at..i] + [argv[i]] == argv[at..i + 1];
        i := i + 1;
      }
    }

    /** curArg.mParams.push_back, for the last entry of the list */
    method PushParam(param: Text)
      requires mArgData != []
      modifies this`mArgData
      ensures mArgData == WithParams(old(mArgData), old(mArgData)[|old(mArgData)| - 1].mParams + [param])
    {
      var n := |mArgData| - 1;
      mArgData := mArgData[..n] + [mArgData[n].(mParams := mArgData[n].mParams + [param])];
    }

    /** The parameters of the program, to the end of the command line */
    method ParseFinal(argv: seq<Text>, at: nat, pCurArg: bool) returns (failed: Option<Failure>, i: nat)
      requires at < |argv| && !Dashed(argv[at]) && pCurArg == (mArgData != [])
      modifies this`mArgData
      ensures failed.Some? ==> Scan(Settings(), argv[at..], old(mArgData)) == Bad(failed.value)
      ensures failed.None? ==> i == |argv| && Scan(Settings(), argv[at..], old(mArgData)) == Good(mArgData)
    {
      hide Scan, AnyDashed;
      i := at;
      ScanFinal(Settings(), argv[at..], mArgData);
      if mLastArgInfo.mNumParams.ParamNone? || (mLastArgInfo.mNumParams.ParamOne? && i + 1 != |argv|) {
        return Some(BadParam), i;
      }
      mArgData := mArgData + [ArgData(mLastArgInfo.mId, [], [])];
      // the source stops with an exception at the first switch that this reaches
      i := PushPlain(argv, i);
      if i < |argv| {
        DashedAt(argv[at..], i - at);
        return Some(if !pCurArg then BadSwitchPos else BadArgParam), i;
      }
      assert argv[at..i] == argv[at..];
      return None, i;
    }

    method TestMutEx() returns (excluded: bool)
      ensures excluded == exists k :: 0 <= k < |mMutExList| && Excluded(mArgData, mMutExList[k])
    {
      var iter1 := new CmdLineIter(mArgData);
      var iter2 := new CmdLineIter(mArgData);
      for i := 0 to |mMutExList|
        invariant forall k :: 0 <= k < i ==> !Excluded(mArgData, mMutExList[k])
      {
        var _ := iter1.SeekToArg(mMutExList[i].0);
        if !iter1.Done() {
          var _ := iter2.SeekToArg(mMutExList[i].1);
          if !iter2.Done() { return true; }
        }
      }
      return false;
    }

    method TestDependency() returns (broken: bool)
      ensures broken == exists k :: 0 <= k < |mDependencyList| && !Holds(mArgData, mDependencyList[k])
    {
      var iter1 := new CmdLineIter(mArgData);
      var iter2 := new CmdLineIter(mArgData);
      for i := 0 to |mDependencyList|
        invariant forall k :: 0 <= k < i ==> Holds(mArgData, mDependencyList[k])
      {
        var _ := iter1.SeekToArg(mDependencyList[i].first);
        if !iter1.Done() {
          var _ := iter2.SeekToArg(mDependencyList[i].second);
          if iter2.Done() { return true; }
        } else if mDependencyList[i].mutual {
          var _ := iter2.SeekToArg(mDependencyList[i].second);
          if !iter2.Done() { return true; }
        }
      }
      return false;
    }
  }

  lemma DashedAt(args: seq<Text>, i: nat)
    requires i < |args| && Dashed(args[i])
    ensures AnyDashed(args)
  {}

  lemma ScanEnd(c: Config, data: seq<ArgData>)
    ensures Scan(c, [], data) == if c.last.mNumParams.ParamOne? then Bad(BadParam) else Good(data)
  {}

  lemma ScanFinal(c: Config, args: seq<Text>, data: seq<ArgData>)
    requires args != [] && !Dashed(args[0])
    ensures Scan(c, args, data) ==
            if c.last.mNumParams.ParamNone? || (c.last.mNumParams.ParamOne? && |args| != 1) then Bad(BadParam)
            else if AnyDashed(args) then Bad(if data == [] then BadSwitchPos else BadArgParam)
            else Good(WithParams(data + [ArgData(c.last.mId, [], [])], args))
  {
    assert WithParams(data + [ArgData(c.last.mId, [], [])], args) == data + [ArgData(c.last.mId, [], args)];
  }

  function WithParams(data: seq<ArgData>, params: seq<Text>): (r: seq<ArgData>)
    requires data != []
    ensures |r| == |data|
  {
    data[..|data| - 1] + [data[|data| - 1].(mParams := params)]
  }

  lemma SameParams(data: seq<ArgData>)
    requires data != []
    ensures WithParams(data, data[|data| - 1].mParams) == data
  {}

  lemma SwitchRead(c: Config, argv: seq<Text>, at: nat, i: nat, before: seq<ArgData>)
    requires at <= i < |argv| && Dashed(argv[at]) && argv[at][1..] in c.table
    requires InList(before, c.table[argv[at][1..]].mId) ==> c.table[argv[at][1..]].mId in c.multipleAllowed
    requires Fits(c.table[argv[at][1..]].mNumParams, argv[at + 1..i + 1]) &&
             Follows(c.table[argv[at][1..]].mNumParams, argv[i + 1..])
    ensures Scan(c, argv[at..], before) ==
            Scan(c, argv[i + 1..], WithParams(before + [ArgData(c.table[argv[at][1..]].mId, argv[at], [])],
                                              argv[at + 1..i + 1]))
  {
    hide Scan, Follows, Fits;
    var d := ArgData(c.table[argv[at][1..]].mId, argv[at], argv[at + 1..i + 1]);
    assert argv[at..] == [argv[at]] + d.mParams + argv[i + 1..];
    assert argv[at..][1..] == d.mParams + argv[i + 1..];
    StepHead(c, argv[at..], before, d, argv[i + 1..]);
    assert WithParams(before + [d.(mParams := [])], d.mParams) == before + [d];
  }

  function Declared(c: Config, argId: int, arg: Text, alias: Text, numParams: ParamCount,
                    multipleAllowed: bool): Config {
    if arg == [] && alias == [] then c.(last := ArgInfo(argId, numParams))
    else
      var t := if arg == [] then c.table else c.table[arg := ArgInfo(argId, numParams)];
      c.(table := if alias == [] then t else t[[DASH] + alias := ArgInfo(argId, numParams)],
      multipleAllowed := c.multipleAllowed + if multipleAllowed then {argId} else {})
  }
}
