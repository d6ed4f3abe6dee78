/** cUnixFSServices::FullPath, IsRoot and the path helpers, against the stack of elements. */
module FullPath {
  import opened PathElements
  import opened Wrappers

  // ---- std::string::find_first_not_of, find, rfind ----

  function FindNotSep(s: Text, p: nat): (k: int)
    ensures k == -1 || (p <= k < |s| && s[k] != SLASH)
    decreases |s| - p
  {
    if p >= |s| then -1 else if s[p] != SLASH then p else FindNotSep(s, p + 1)
  }

  function FindSep(s: Text, p: nat): (k: int)
    ensures k == -1 || (p <= k < |s| && s[k] == SLASH)
    decreases |s| - p
  {
    if p >= |s| then -1 else if s[p] == SLASH then p else FindSep(s, p + 1)
  }

  lemma {:induction false} SkipSeps(s: Text, p: nat)
    requires p <= |s|
    ensures var k := FindNotSep(s, p); Elements(s[p..]) == if k == -1 then [] else Elements(s[k..])
    decreases |s| - p
  {
    if p < |s| && s[p] == SLASH {
      SkipSeps(s, p + 1);
      assert s[p..][1..] == s[p + 1..];
    }
  }

  lemma {:induction false} RunTo(s: Text, p: nat)
    requires p <= |s|
    ensures var k := FindSep(s, p); Run(s[p..]) == (if k == -1 then |s| else k) - p
    decreases |s| - p
  {
    if p < |s| && s[p] != SLASH {
      RunTo(s, p + 1);
      assert s[p..][1..] == s[p + 1..];
    }
  }

  /** The element that starts at k, and the elements after it */
  lemma NextElement(s: Text, k: nat)
    requires k < |s| && s[k] != SLASH
    ensures var e := FindSep(s, k);
            Elements(s[k..]) == if e == -1 then [s[k..]] else [s[k..e]] + Elements(s[e + 1..])
  {
    RunTo(s, k);
    var e := FindSep(s, k);
    if e == -1 {
      assert s[k..][..|s| - k] == s[k..] && s[k..][|s| - k..] == [];
    } else {
      assert s[k..][..e - k] == s[k..e] && s[k..][e - k..] == s[e..];
      assert s[e..][0] == SLASH && s[e..][1..] == s[e + 1..];
    }
  }

  function Substr(s: Text, k: nat, e: int): Text
    requires k <= |s| && (e == -1 || k <= e <= |s|)
  {
    if e == -1 then s[k..] else s[k..e]
  }

  /** The elements from the i-th on are those of the path from position p on. */
  ghost predicate At(s: Text, p: nat, all: seq<Text>, i: nat) {
    p <= |s| && i <= |all| && all[i..] == Elements(s[p..])
  }

  lemma AtStart(s: Text)
    ensures At(s, 0, Elements(s), 0)
  {
    assert s[0..] == s;
  }

  /** One turn of the scan */
  lemma ScanOne(s: Text, p: nat, all: seq<Text>, i: nat)
    requires At(s, p, all, i)
    ensures var k := FindNotSep(s, p);
            if k == -1 then |all| == i
            else
              var e := FindSep(s, k);
              i < |all| && all[i] == Substr(s, k, e) && if e == -1 then |all| == i + 1 else At(s, e + 1, all, i + 1)
  {
    hide Elements;
    SkipSeps(s, p);
    var k := FindNotSep(s, p);
    if k == -1 {
      assert |all[i..]| == 0;
    } else {
      NextElement(s, k);
      assert all[i..][0] == all[i] && all[i..][1..] == all[i + 1..];
    }
  }

  // ---- the helpers ----

  method IsRoot(strPath: Text) returns (r: bool)
    ensures r == (strPath != [] && forall i :: 0 <= i < |strPath| ==> strPath[i] == SLASH)
    ensures r == (strPath != [] && Elements(strPath) == [])
  {
    NoElements(strPath);
    if |strPath| == 0 { return false; }
    for iter := 0 to |strPath|
      invariant forall i :: 0 <= i < iter ==> strPath[i] == SLASH
    {
      if strPath[iter] != SLASH { return false; }
    }
    return true;
  }

  /** Scans from the start each time, for the element with the given index. */
  method GetNextPathElement(strPath: Text, index: nat) returns (found: bool, strElem: Text)
    ensures found == (index < |Elements(strPath)|)
    ensures found ==> strElem == Elements(strPath)[index]
  {
    var root := IsRoot(strPath);
    if |strPath| == 0 || root { return false, []; }
    found, strElem := ScanElements(strPath, index);
  }

  method ScanElements(strPath: Text, index: nat) returns (found: bool, strElem: Text)
    ensures found == (index < |Elements(strPath)|)
    ensures found ==> strElem == Elements(strPath)[index]
  {
    hide *;
    var fMoreSeps, nextSep, nextNonSep := true, -1, -1;
    ghost var all := Elements(strPath);
    AtStart(strPath);
    var i := 0;
    while i <= index && fMoreSeps
      invariant i <= index + 1 && -1 <= nextSep < |strPath|
      invariant !fMoreSeps ==> index >= |all|
      invariant fMoreSeps && i <= index ==> At(strPath, nextSep + 1, all, i)
      invariant fMoreSeps && i == index + 1 ==>
                  index < |all| && 0 <= nextNonSep < |strPath| && (nextSep == -1 || nextNonSep <= nextSep)
                  && all[index] == Substr(strPath, nextNonSep, nextSep)
    {
      ScanOne(strPath, nextSep + 1, all, i);
      nextNonSep := FindNotSep(strPath, nextSep + 1);
      if nextNonSep != -1 {
        nextSep := FindSep(strPath, nextNonSep);
        if nextSep == -1 && i < index { fMoreSeps := false; }
      } else {
        fMoreSeps := false;
      }
      i := i + 1;
    }
    strElem := if fMoreSeps then Substr(strPath, nextNonSep, nextSep) else [];
    found := fMoreSeps;
  }

  method TrailingSep(str: Text, fLeaveSep: bool) returns (out: Text, fWasSep: bool)
    ensures fWasSep == EndsWithSep(str)
    ensures out == if fLeaveSep then (if fWasSep then str else str + [SLASH]) else TrimOne(str)
  {
    if |str| != 0 && str[|str| - 1] == SLASH {
      return if fLeaveSep then str else str[..|str| - 1], true;
    } else {
      return if fLeaveSep then str + [SLASH] else str, false;
    }
  }

  method RemoveTrailingSeps(str: Text) returns (out: Text)
    ensures out == TrimSeps(str)
  {
    var more: bool;
    out, more := TrailingSep(str, false);
    while more
      invariant TrimSeps(out) == TrimSeps(str) && (!more ==> out == TrimSeps(out))
      decreases |out|, more
    {
      out, more := TrailingSep(out, false);
    }
  }

  /** Pops the last element off the path it stands for. */
  method RemoveLastPathElement(strPath: Text) returns (out: Text, strElem: Text)
    ensures out == WithoutLast(strPath) && strElem == LastElement(strPath)
  {
    out := RemoveTrailingSeps(strPath);
    var lastSep := LastSep(out);
    if lastSep != -1 {
      strElem := out[lastSep + 1..];
      out := out[..lastSep + 1];
    } else {
      strElem := out;
      out := [];
    }
    out := RemoveTrailingSeps(out);
  }

  /** Erases each separator that follows another, in place. */
  method RemoveDuplicateSeps(strPath: Text) returns (out: Text)
    ensures out == Squeeze(strPath)
  {
    out := strPath;
    var fLastCharWasSep, iter := false, 0;
    ghost var done := 0;
    while iter != |out|
      invariant iter <= |out| && done <= |strPath| && out[..iter] == Squeeze(strPath[..done]) &&
                out[iter..] == strPath[done..]
      invariant fLastCharWasSep == EndsWithSep(strPath[..done])
      decreases |out| - iter
    {
      var fErasedChar := false;
      assert strPath[..done + 1][..done] == strPath[..done] && out[iter] == strPath[done];
      if out[iter] == SLASH {
        if fLastCharWasSep {
          out := out[..iter] + out[iter + 1..];
          fErasedChar := true;
        }
        fLastCharWasSep := true;
      } else {
        fLastCharWasSep := false;
      }
      if !fErasedChar { iter := iter + 1; }
      done := done + 1;
    }
    assert strPath[..done] == strPath;
  }

  // ---- FullPath ----

  /** The path that the elements of a name are added to: none for an absolute name, else the directory it is relative
      to, else the current directory, if there is one. */
  function Base(rel: Text, from: Text, cwd: Option<Text>): Option<Path>
    requires rel != []
  {
    if rel[0] == SLASH then Some(Path(true, []))
    else if from != [] then Some(PathOf(from))
    else match cwd case None => None case Some(dir) => Some(PathOf(dir))
  }

  function Resolve(rel: Text, from: Text, cwd: Option<Text>): Option<Text> {
    if rel == [] then None
    else if Elements(rel) == [] then Some(rel)
    else match Base(rel, from, cwd) case None => None case Some(base) => Some(Render(Walk(base, Elements(rel))))
  }

  lemma {:induction false} WalkConcat(p: Path, xs: seq<Text>, ys: seq<Text>)
    ensures Walk(p, xs + ys) == Walk(Walk(p, xs), ys)
    decreases |xs|
  {
    if xs == [] {
      assert xs + ys == ys;
    } else {
      assert (xs + ys)[1..] == xs[1..] + ys;
      WalkConcat(Step(p, xs[0]), xs[1..], ys);
    }
  }

  lemma WalkMore(p: Path, xs: seq<Text>, i: nat)
    requires i < |xs|
    ensures Walk(p, xs[..i + 1]) == Step(Walk(p, xs[..i]), xs[i])
  {
    assert xs[..i + 1] == xs[..i] + [xs[i]];
    WalkConcat(p, xs[..i], [xs[i]]);
    assert Walk(Step(Walk(p, xs[..i]), xs[i]), [xs[i]][1..]) == Step(Walk(p, xs[..i]), xs[i]);
  }

  lemma {:induction false} WalkNames(p: Path, xs: seq<Text>)
    requires Names(p.stack) && Names(xs)
    ensures Names(Walk(p, xs).stack)
    decreases |xs|
  {
    if xs != [] {
      assert xs[0] in xs && forall e :: e in xs[1..] ==> e in xs;
      assert Names(xs[1..]);
      WalkNames(Step(p, xs[0]), xs[1..]);
    }
  }

  /** The result is that of walking the elements on a stack; None stands for a returned false.  The current directory
      is given without duplicate separators. */
  method FullPath(strRelPath: Text, pathRelFrom: Text, cwd: Option<Text>) returns (r: Option<Text>)
    requires cwd.Some? ==> Squeeze(cwd.value) == cwd.value
    ensures r == Resolve(strRelPath, pathRelFrom, cwd)
    ensures Relative(strRelPath) && pathRelFrom == [] && cwd.None? ==> r == None
    ensures Relative(strRelPath) && pathRelFrom == [] && cwd.Some? && cwd.value != [] ==>
              r == Resolve(strRelPath, cwd.value, None)
  {
    if Relative(strRelPath) { CurrentDirectory(strRelPath, pathRelFrom, cwd); }
    if |strRelPath| == 0 { return None; }
    var strFullPath: Text, hadSep := [], false;
    NoElements(strRelPath);
    if strRelPath[0] == SLASH {
      var root := IsRoot(strRelPath);
      if root { return Some(strRelPath); }
      strFullPath := [];
    } else if |pathRelFrom| == 0 {
      if cwd.None? { return None; }
      strFullPath, hadSep := TrailingSep(cwd.value, false);
      BaseOf(cwd.value);
      ElementsAreNames(cwd.value);
    } else {
      strFullPath := RemoveDuplicateSeps(pathRelFrom);
      strFullPath, hadSep := TrailingSep(strFullPath, false);
      BaseOf(pathRelFrom);
      ElementsAreNames(pathRelFrom);
    }
    var out := AddElements(strRelPath, strFullPath, Base(strRelPath, pathRelFrom, cwd).value);
    return Some(out);
  }

  method AddElements(strRelPath: Text, start: Text, ghost base: Path) returns (strFullPath: Text)
    requires start == Render(base) && Names(base.stack)
    ensures strFullPath == Render(Walk(base, Elements(strRelPath)))
  {
    hide Elements, Walk, Render, WithoutLast;
    strFullPath := start;
    ghost var elems := Elements(strRelPath);
    ElementsAreNames(strRelPath);
    var index := 0;
    WalkNothing(base);
    assert elems[..0] == [];
    var more, strElem := GetNextPathElement(strRelPath, index);
    while more
      invariant index <= |elems| && more == (index < |elems|) && (more ==> strElem == elems[index])
      invariant strFullPath == Render(Walk(base, elems[..index])) && Names(Walk(base, elems[..index]).stack)
      decreases |elems| - index
    {
      WalkMore(base, elems, index);
      assert Names(elems[..index + 1]);
      WalkNames(base, elems[..index + 1]);
      if strElem == DOT {
      } else if strElem == DOTDOT {
        RenderPop(Walk(base, elems[..index]));
        var strDummy;
        strFullPath, strDummy := RemoveLastPathElement(strFullPath);
      } else {
        RenderPush(Walk(base, elems[..index]), strElem);
        strFullPath := strFullPath + [SLASH];
        strFullPath := strFullPath + strElem;
      }
      index := index + 1;
      more, strElem := GetNextPathElement(strRelPath, index);
    }
    assert elems[..index] == elems;
  }

  lemma WalkNothing(p: Path)
    ensures Walk(p, []) == p
  {}

  // ---- what FullPath promises of an absolute name ----

  predicate Absolute(s: Text) { s != [] && s[0] == SLASH && Elements(s) != [] }

  /** Names only, none of them a dot or two dots */
  predicate Clean(stack: seq<Text>) { forall e :: e in stack ==> Name(e) && e != DOT && e != DOTDOT }

  lemma StepClean(p: Path, e: Text)
    requires Clean(p.stack) && Name(e)
    ensures Clean(Step(p, e).stack)
  {
    var q := Step(p, e).stack;
    forall x | x in q ensures Name(x) && x != DOT && x != DOTDOT {
      var i :| 0 <= i < |q| && q[i] == x;
      if i < |p.stack| { assert q[i] == p.stack[i] && p.stack[i] in p.stack; }
    }
  }

  lemma {:induction false} WalkClean(p: Path, xs: seq<Text>)
    requires p.lead && Clean(p.stack) && Names(xs)
    ensures Walk(p, xs).lead && Clean(Walk(p, xs).stack)
    decreases |xs|
  {
    if xs != [] {
      assert xs[0] in xs && forall e :: e in xs[1..] ==> e in xs;
      assert Names(xs[1..]);
      StepClean(p, xs[0]);
      WalkClean(Step(p, xs[0]), xs[1..]);
    }
  }

  lemma {:induction false} ElementsOfJoined(stack: seq<Text>)
    requires Names(stack)
    ensures Elements(Joined(stack)) == stack
  {
    if stack != [] {
      var n := |stack| - 1;
      assert Name(stack[n]) && Names(stack[..n]);
      ElementsOfJoined(stack[..n]);
      ElementsConcat(Joined(stack[..n]), stack[n]);
      ElementsOfRun(stack[n]);
    }
  }

  lemma {:induction false} JoinedLeads(stack: seq<Text>)
    ensures stack != [] ==> Joined(stack) != [] && Joined(stack)[0] == SLASH
  {
    if |stack| > 1 { JoinedLeads(stack[..|stack| - 1]); }
  }

  lemma {:induction false} WalkCleanNames(p: Path, xs: seq<Text>)
    requires p.lead && Clean(xs)
    ensures Walk(p, xs) == Path(true, p.stack + xs)
    decreases |xs|
  {
    if xs == [] {
      assert p.stack + xs == p.stack;
    } else {
      assert xs[0] in xs && forall e :: e in xs[1..] ==> e in xs;
      assert Clean(xs[1..]);
      WalkCleanNames(Push(p, xs[0]), xs[1..]);
      assert p.stack + [xs[0]] + xs[1..] == p.stack + xs;
    }
  }

  /** It resolves, whatever the directories, to names joined by single separators, without dots. */
  lemma AbsoluteResult(rel: Text, from: Text, cwd: Option<Text>)
    requires Absolute(rel)
    ensures var stack := Walk(Path(true, []), Elements(rel)).stack;
            Clean(stack) && Resolve(rel, from, cwd) == Some(Joined(stack)) && Elements(Joined(stack)) == stack
  {
    ElementsAreNames(rel);
    WalkClean(Path(true, []), Elements(rel));
    ElementsOfJoined(Walk(Path(true, []), Elements(rel)).stack);
  }

  // ---- how many names are left ----

  predicate IsUp(e: Text) { e == DOTDOT }

  predicate IsName(e: Text) { e != DOT && e != DOTDOT }

  /** How deep below its start a walk ends that starts d names deep: a name goes down one, two dots go up one, but
      never above the start. */
  function Depth(d: nat, elems: seq<Text>): nat
    decreases |elems|
  {
    if elems == [] then d
    else Depth(if IsName(elems[0]) then d + 1 else if IsUp(elems[0]) && d > 0 then d - 1 else d, elems[1..])
  }

  lemma {:induction false} WalkDepth(p: Path, elems: seq<Text>)
    ensures |Walk(p, elems).stack| == Depth(|p.stack|, elems)
    decreases |elems|
  {
    if elems != [] { WalkDepth(Step(p, elems[0]), elems[1..]); }
  }

  /** An absolute name resolves to nothing at all exactly when its walk ends where it started. */
  lemma EmptyResult(rel: Text, from: Text, cwd: Option<Text>)
    requires Absolute(rel)
    ensures Resolve(rel, from, cwd).Some? && (Resolve(rel, from, cwd).value == [] <==> Depth(0, Elements(rel)) == 0)
  {
    AbsoluteResult(rel, from, cwd);
    WalkDepth(Path(true, []), Elements(rel));
    JoinedLeads(Walk(Path(true, []), Elements(rel)).stack);
  }

  /** The result resolves to itself whatever the directories, if its walk does not end at the root; else nothing is
      left that could resolve. */
  lemma FixedPoint(rel: Text, from: Text, cwd: Option<Text>, from': Text, cwd': Option<Text>)
    requires Absolute(rel)
    ensures var r := Resolve(rel, from, cwd);
            r.Some? && Resolve(r.value, from', cwd') == if Depth(0, Elements(rel)) == 0 then None else r
  {
    AbsoluteResult(rel, from, cwd);
    WalkDepth(Path(true, []), Elements(rel));
    var stack := Walk(Path(true, []), Elements(rel)).stack;
    if stack != [] {
      JoinedLeads(stack);
      WalkCleanNames(Path(true, []), stack);
      assert [] + stack == stack;
    }
  }

  /** "/..": the parent of the root is the empty string. */
  lemma ParentOfRoot(from: Text, cwd: Option<Text>)
    ensures Absolute([47, 46, 46]) && Resolve([47, 46, 46], from, cwd) == Some([])
  {
    assert [SLASH] + DOTDOT == [47, 46, 46];
    ElementsOfRun(DOTDOT);
    assert ([SLASH] + DOTDOT)[1..] == DOTDOT;
    assert [DOTDOT][1..] == [];
    EmptyResult([SLASH] + DOTDOT, from, cwd);
  }

  /** Separators alone are the root, and stay as they are; the empty name does not resolve. */
  lemma RootStays(rel: Text, from: Text, cwd: Option<Text>)
    requires forall i :: 0 <= i < |rel| ==> rel[i] == 47
    ensures Resolve(rel, from, cwd) == if rel == [] then None else Some(rel)
  {
    NoElements(rel);
  }

  // ---- what a relative name is relative to ----

  predicate Relative(s: Text) { s != [] && s[0] != SLASH }

  /** Without a directory a relative name is relative to the current directory, and does not resolve without one; with a
      directory the current one does not matter. */
  lemma CurrentDirectory(rel: Text, from: Text, cwd: Option<Text>)
    requires Relative(rel)
    ensures Resolve(rel, [], None) == None
    ensures cwd.Some? && cwd.value != [] ==> Resolve(rel, [], cwd) == Resolve(rel, cwd.value, None)
    ensures from != [] ==> Resolve(rel, from, cwd) == Resolve(rel, from, None)
  {
    RelativeHasElements(rel);
  }

  // ---- dots within a name ----

  /** After a name, two dots take it back, and one dot does nothing. */
  lemma WalkDots(p: Path, xs: seq<Text>, name: Text, ys: seq<Text>)
    requires p.lead && IsName(name)
    ensures Walk(p, xs + [name, DOTDOT] + ys) == Walk(p, xs + ys) == Walk(p, xs + [DOT] + ys)
  {
    WalkLead(p, xs);
    var q := Walk(p, xs);
    WalkConcat(p, xs + [name, DOTDOT], ys);
    WalkConcat(p, xs, [name, DOTDOT]);
    WalkConcat(p, xs + [DOT], ys);
    WalkConcat(p, xs, [DOT]);
    WalkConcat(p, xs, ys);
    WalkTwo(q, name, DOTDOT);
    WalkOne(q, DOT);
    assert Pop(Push(q, name)) == q by { assert (q.stack + [name])[..|q.stack|] == q.stack; }
  }

  lemma {:induction false} WalkLead(p: Path, xs: seq<Text>)
    requires p.lead
    ensures Walk(p, xs).lead
    decreases |xs|
  {
    if xs != [] { WalkLead(Step(p, xs[0]), xs[1..]); }
  }

  /** "/a/name/../b" is "/a/b", and so is "/a/./b", unless nothing is left of the name. */
  lemma DotsCancel(a: Text, name: Text, b: Text, from: Text, cwd: Option<Text>)
    requires a != [] && a[0] == 47 && name != [] && 47 !in name && name != [46] && name != [46, 46]
    requires Elements(a) + Elements(b) != []
    ensures Resolve(a + [47] + name + [47, 46, 46, 47] + b, from, cwd) == Resolve(a + [47] + b, from, cwd)
    ensures Resolve(a + [47, 46, 47] + b, from, cwd) == Resolve(a + [47] + b, from, cwd)
  {
    ParentElements(a, name, b);
    DotElements(a, b);
    ElementsConcat(a, b);
    hide Elements, Walk, Render;
    var up, here, plain := a + [47] + name + [47, 46, 46, 47] + b, a + [47, 46, 47] + b, a + [47] + b;
    assert up[0] == SLASH && here[0] == SLASH && plain[0] == SLASH;
    WalkDots(Path(true, []), Elements(a), name, Elements(b));
  }

  lemma ParentElements(a: Text, name: Text, b: Text)
    requires Name(name)
    ensures Elements(a + [47] + name + [47, 46, 46, 47] + b) == Elements(a) + [name, DOTDOT] + Elements(b)
  {
    var rest := DOTDOT + [SLASH] + b;
    ElementsConcat(DOTDOT, b);
    ElementsConcat(name, rest);
    ElementsConcat(a, name + [SLASH] + rest);
    ElementsOfRun(name);
    ElementsOfRun(DOTDOT);
    Regrouped(a, name, b);
    Inserted(Elements(a), name, DOTDOT, Elements(b));
    hide *;
  }

  lemma Inserted(xs: seq<Text>, d: Text, e: Text, ys: seq<Text>)
    ensures xs + ([d] + ([e] + ys)) == xs + [d, e] + ys
  {}

  lemma Regrouped(a: Text, name: Text, b: Text)
    ensures a + [47] + name + [47, 46, 46, 47] + b == a + [SLASH] + (name + [SLASH] + (DOTDOT + [SLASH] + b))
  {}

  lemma DotElements(a: Text, b: Text)
    ensures Elements(a + [47, 46, 47] + b) == Elements(a) + [DOT] + Elements(b)
  {
    ElementsConcat(DOT, b);
    ElementsConcat(a, DOT + [SLASH] + b);
    ElementsOfRun(DOT);
    hide Elements;
    assert a + [47, 46, 47] + b == a + [SLASH] + (DOT + [SLASH] + b);
  }

  // ---- composition ----

  lemma RelativeHasElements(rel: Text)
    requires Relative(rel)
    ensures Elements(rel) != []
  {
    NoElements(rel);
  }

  /** Resolving a relative name against what a rooted directory resolves to: the two names resolved as one, except for
      a directory that leads back to the root, which resolves to the empty string and so stands for the current
      directory. */
  lemma TwoSteps(dir: Text, rel: Text, cwd: Option<Text>)
    requires dir != [] && dir[0] == SLASH && Relative(rel)
    ensures Resolve(dir, [], cwd).Some?
    ensures Resolve(rel, Resolve(dir, [], cwd).value, cwd) ==
            if Elements(dir) != [] && Depth(0, Elements(dir)) == 0 then Resolve(rel, [], cwd)
            else Resolve(dir + [SLASH] + rel, [], cwd)
  {
    RelativeHasElements(rel);
    ElementsConcat(dir, rel);
    var all := dir + [SLASH] + rel;
    assert all[0] == SLASH && Elements(all) == Elements(dir) + Elements(rel);
    if Elements(dir) == [] {
      assert Elements(all) == Elements(rel);
    } else {
      EmptyResult(dir, [], cwd);
      AbsoluteResult(dir, [], cwd);
      var stack := Walk(Path(true, []), Elements(dir)).stack;
      JoinedLeads(stack);
      WalkClean(Path(true, []), Elements(dir)) by { ElementsAreNames(dir); }
      WalkConcat(Path(true, []), Elements(dir), Elements(rel));
    }
  }

  predicate NoDots(elems: seq<Text>) { forall i :: 0 <= i < |elems| ==> IsName(elems[i]) }

  /** The two ways to resolve a name below a rooted directory that was not resolved first */
  predicate Composes(dir: Text, rel: Text, cwd: Option<Text>) {
    Resolve(rel, dir, cwd) == Resolve(dir + [SLASH] + rel, [], cwd)
  }

  /** They agree for every name exactly when the directory has no dots: its own dots are never resolved. */
  lemma UnresolvedDirectory(dir: Text, cwd: Option<Text>)
    requires dir != [] && dir[0] == SLASH
    ensures NoDots(Elements(dir)) <==> forall rel: Text :: Relative(rel) ==> Composes(dir, rel, cwd)
  {
    var elems := Elements(dir);
    if NoDots(elems) {
      forall rel: Text | Relative(rel) ensures Composes(dir, rel, cwd) {
        WalkOfBoth(dir, rel, cwd);
        ElementsAreNames(dir);
        assert Clean(elems);
        WalkCleanNames(Path(true, []), elems);
        assert [] + elems == elems;
      }
    } else {
      var name: Text := [120];
      assert Relative(name);
      WalkOfBoth(dir, name, cwd);
      DotsStay(dir, name);
    }
  }

  lemma WalkOfBoth(dir: Text, rel: Text, cwd: Option<Text>)
    requires dir != [] && dir[0] == SLASH && Relative(rel)
    ensures Resolve(rel, dir, cwd) == Some(Render(Walk(Path(true, Elements(dir)), Elements(rel))))
    ensures Resolve(dir + [SLASH] + rel, [], cwd)
         == Some(Render(Walk(Walk(Path(true, []), Elements(dir)), Elements(rel))))
  {
    RelativeHasElements(rel);
    ElementsConcat(dir, rel);
    assert (dir + [SLASH] + rel)[0] == SLASH;
    WalkConcat(Path(true, []), Elements(dir), Elements(rel));
  }

  /** One more name after a directory with dots keeps them on one way and not on the other. */
  lemma DotsStay(dir: Text, name: Text)
    requires Name(name) && IsName(name) && !NoDots(Elements(dir))
    ensures Render(Walk(Path(true, Elements(dir)), Elements(name)))
         != Render(Walk(Walk(Path(true, []), Elements(dir)), Elements(name)))
  {
    var elems := Elements(dir);
    ElementsOfRun(name);
    ElementsAreNames(dir);
    var p, q := Path(true, elems), Walk(Path(true, []), elems);
    WalkClean(Path(true, []), elems);
    assert [name][1..] == [];
    WalkNothing(Push(p, name));
    WalkNothing(Push(q, name));
    if elems == q.stack {
      CleanHasNoDots(elems);
      assert false;
    }
    LastAppended(elems, q.stack, name);
    ElementsOfJoined(elems + [name]);
    ElementsOfJoined(q.stack + [name]);
  }

  lemma CleanHasNoDots(elems: seq<Text>)
    requires Clean(elems)
    ensures NoDots(elems)
  {
    forall i | 0 <= i < |elems| ensures IsName(elems[i]) { assert elems[i] in elems; }
  }

  lemma LastAppended(a: seq<Text>, b: seq<Text>, e: Text)
    requires a != b
    ensures a + [e] != b + [e]
  {
    assert (a + [e])[..|a|] == a && (b + [e])[..|b|] == b;
  }

  // ---- relative directories ----

  /** Somewhere on the way the walk was back at its start and met a name there. */
  predicate LeavesStart(d: nat, elems: seq<Text>) {
    exists k :: 0 <= k < |elems| && Depth(d, elems[..k]) == 0 && IsName(elems[k])
  }

  lemma {:induction false} LeadAfter(p: Path, elems: seq<Text>, n: nat)
    requires !p.lead && n <= |elems|
    ensures Walk(p, elems[..n]).lead <==>
            exists k :: 0 <= k < n && Depth(|p.stack|, elems[..k]) == 0 && IsName(elems[k])
  {
    if n > 0 {
      LeadAfter(p, elems, n - 1);
      WalkMore(p, elems, n - 1);
      WalkDepth(p, elems[..n - 1]);
    } else {
      assert elems[..n] == [];
    }
  }

  lemma {:induction false} SecondOfJoined(stack: seq<Text>)
    requires stack != [] && Name(stack[0])
    ensures |Joined(stack)| > 1 && Joined(stack)[1] == stack[0][0]
  {
    if |stack| > 1 {
      SecondOfJoined(stack[..|stack| - 1]);
    } else {
      assert Joined(stack) == [] + [SLASH] + stack[0];
    }
  }

  lemma RenderedLead(p: Path)
    requires Names(p.stack)
    ensures Render(p) != [] && Render(p)[0] == SLASH <==> p.lead && p.stack != []
  {
    JoinedLeads(p.stack);
    if p.stack != [] {
      assert Name(p.stack[0]);
      SecondOfJoined(p.stack);
      assert p.stack[0][0] in p.stack[0];
    }
  }

  /** A relative name against a relative directory resolves to an absolute one exactly when the walk comes to the end
      of the directory, goes on from there with a name, and does not end there. */
  lemma BecomesAbsolute(rel: Text, from: Text, cwd: Option<Text>)
    requires Relative(rel) && Relative(from)
    ensures Resolve(rel, from, cwd).Some?
    ensures var r := Resolve(rel, from, cwd).value;
            var d := |Elements(from)|;
            r != [] && r[0] == SLASH <==> LeavesStart(d, Elements(rel)) && Depth(d, Elements(rel)) != 0
  {
    RelativeHasElements(rel);
    var p, elems := PathOf(from), Elements(rel);
    LeadAfter(p, elems, |elems|);
    assert elems[..|elems|] == elems;
    WalkDepth(p, elems);
    ElementsAreNames(from);
    ElementsAreNames(rel);
    WalkNames(p, elems);
    RenderedLead(Walk(p, elems));
  }

  lemma WalkOne(p: Path, e: Text)
    ensures Walk(p, [e]) == Step(p, e)
  {
    assert [e][1..] == [];
  }

  lemma WalkTwo(p: Path, e: Text, f: Text)
    ensures Walk(p, [e, f]) == Step(Step(p, e), f)
  {
    assert [e, f][1..] == [f];
    WalkOne(Step(p, e), f);
  }

  const A: Text := [97]
  const X: Text := [120]

  lemma Letters()
    ensures IsName(A) && IsName(X) && !IsName(DOTDOT) && DOTDOT != DOT
    ensures Elements(A) == [A] && Elements(X) == [X] && Elements(DOTDOT) == [DOTDOT]
  {
    assert X[0] != DOT[0] && A[0] != DOT[0];
    ElementsOfRun(A);
    ElementsOfRun(X);
    ElementsOfRun(DOTDOT);
  }

  lemma RenderOne(e: Text)
    ensures Render(Path(true, [e])) == [SLASH] + e
  {
    RenderPush(Path(true, []), e);
    assert Push(Path(true, []), e) == Path(true, [e]);
    assert [] + [SLASH] + e == [SLASH] + e;
  }

  /** "../x" from "a" is "/x". */
  lemma OutOfRelative(cwd: Option<Text>)
    ensures Resolve([46, 46, 47, 120], [97], cwd) == Some([47, 120])
  {
    assert DOTDOT + [SLASH] + X == [46, 46, 47, 120] && [SLASH] + X == [47, 120];
    Letters();
    var rel := DOTDOT + [SLASH] + X;
    ElementsConcat(DOTDOT, X);
    assert Elements(rel) == [DOTDOT, X];
    var p := Path(false, [A]);
    assert PathOf(A) == p;
    WalkTwo(p, DOTDOT, X);
    assert Step(p, DOTDOT) == Path(false, []);
    assert Step(Path(false, []), X) == Path(true, [X]);
    RenderOne(X);
  }

  /** "../x/.." from "a" is the empty string, although the walk met a name at the end of the directory. */
  lemma OutAndBack(cwd: Option<Text>)
    ensures Resolve(DOTDOT + [SLASH] + X + [SLASH] + DOTDOT, A, cwd) == Some([])
    ensures LeavesStart(|Elements(A)|, Elements(DOTDOT + [SLASH] + X + [SLASH] + DOTDOT))
  {
    Letters();
    var rel := DOTDOT + [SLASH] + X + [SLASH] + DOTDOT;
    ElementsConcat(DOTDOT, X);
    ElementsConcat(DOTDOT + [SLASH] + X, DOTDOT);
    var elems := [DOTDOT, X] + [DOTDOT];
    assert Elements(rel) == elems;
    var p := Path(false, [A]);
    WalkTwo(p, DOTDOT, X);
    WalkConcat(p, [DOTDOT, X], [DOTDOT]);
    assert Walk(p, [DOTDOT, X]) == Path(true, [X]);
    WalkOne(Path(true, [X]), DOTDOT);
    assert Step(Path(true, [X]), DOTDOT) == Path(true, []);
    assert elems[..1] == [DOTDOT] && elems[1] == X;
    WalkOne(p, DOTDOT);
    WalkDepth(p, [DOTDOT]);
  }

  /** "x" from "/a/.." is "/a/../x". */
  lemma DirectoryDotsKept(cwd: Option<Text>)
    ensures Resolve([120], [47, 97, 47, 46, 46], cwd) == Some([47, 97, 47, 46, 46, 47, 120])
  {
    assert [SLASH] + A + [SLASH] + DOTDOT == [47, 97, 47, 46, 46];
    assert [SLASH] + A + [SLASH] + DOTDOT + [SLASH] + X == [47, 97, 47, 46, 46, 47, 120];
    Letters();
    var dir := [SLASH] + A + [SLASH] + DOTDOT;
    ElementsConcat([SLASH] + A, DOTDOT);
    assert ([SLASH] + A)[1..] == A;
    assert Elements(dir) == [A] + [DOTDOT];
    WalkOfBoth(dir, X, cwd);
    var p := Path(true, [A] + [DOTDOT]);
    WalkOne(p, X);
    RenderOne(A);
    RenderPush(Path(true, [A]), DOTDOT);
    assert Push(Path(true, [A]), DOTDOT) == p;
    RenderPush(p, X);
  }
}
