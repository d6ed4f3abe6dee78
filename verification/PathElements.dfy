/** Path strings as stacks of elements: what the helpers of src/core/unixfsservices.cpp:773-880, 1040-1212 compute. */
module PathElements {
  import opened Bytes

  type Text = seq<byte>

  const SLASH: byte := 47
  const DOT: Text := [46]
  const DOTDOT: Text := [46, 46]

  /** The length of the part before the first separator */
  function Run(s: Text): (n: nat)
    ensures n <= |s| && SLASH !in s[..n] && (n < |s| ==> s[n] == SLASH)
  {
    if s == [] || s[0] == SLASH then 0 else 1 + Run(s[1..])
  }

  /** The non-empty parts between separators */
  function Elements(s: Text): seq<Text>
    decreases |s|
  {
    if s == [] then []
    else if s[0] == SLASH then Elements(s[1..])
    else [s[..Run(s)]] + Elements(s[Run(s)..])
  }

  predicate Name(e: Text) { e != [] && SLASH !in e }

  predicate Names(elems: seq<Text>) { forall e :: e in elems ==> Name(e) }

  lemma {:induction false} ElementsAreNames(s: Text)
    ensures Names(Elements(s))
    decreases |s|
  {
    if s != [] {
      if s[0] == SLASH { ElementsAreNames(s[1..]); } else { ElementsAreNames(s[Run(s)..]); }
    }
  }

  lemma {:induction false} RunIs(e: Text, rest: Text)
    requires SLASH !in e && (rest == [] || rest[0] == SLASH)
    ensures Run(e + rest) == |e|
  {
    if e == [] {
      assert e + rest == rest;
    } else {
      assert (e + rest)[1..] == e[1..] + rest;
      RunIs(e[1..], rest);
    }
  }

  lemma ElementsOfName(e: Text, rest: Text)
    requires Name(e) && (rest == [] || rest[0] == SLASH)
    ensures Elements(e + rest) == [e] + Elements(rest)
  {
    RunIs(e, rest);
    assert (e + rest)[..|e|] == e && (e + rest)[|e|..] == rest;
  }

  /** A separator separates. */
  lemma {:induction false} ElementsConcat(a: Text, b: Text)
    ensures Elements(a + [SLASH] + b) == Elements(a) + Elements(b)
    decreases |a|
  {
    var t := a + [SLASH] + b;
    if a == [] {
      assert t[1..] == b;
    } else if a[0] == SLASH {
      assert t[1..] == a[1..] + [SLASH] + b;
      ElementsConcat(a[1..], b);
    } else {
      var n := Run(a);
      assert a[..n] + a[n..] == a;
      assert t == a[..n] + (a[n..] + [SLASH] + b);
      ElementsConcat(a[n..], b);
      ElementsOfName(a[..n], a[n..]);
      ElementsOfName(a[..n], a[n..] + [SLASH] + b);
      hide Elements;
    }
  }

  // ---- a path that is being built ----

  /** The names pushed so far; lead says whether the first one follows a separator. */
  datatype Path = Path(lead: bool, stack: seq<Text>)

  function Joined(stack: seq<Text>): Text {
    if stack == [] then [] else Joined(stack[..|stack| - 1]) + [SLASH] + stack[|stack| - 1]
  }

  function Render(p: Path): Text {
    if p.lead || p.stack == [] then Joined(p.stack) else Joined(p.stack)[1..]
  }

  /** Onto an empty path a name always goes with its separator. */
  function Push(p: Path, e: Text): Path { Path(p.lead || p.stack == [], p.stack + [e]) }

  function Pop(p: Path): Path { if p.stack == [] then p else Path(p.lead, p.stack[..|p.stack| - 1]) }

  function Walk(p: Path, elems: seq<Text>): Path
    decreases |elems|
  {
    if elems == [] then p else Walk(Step(p, elems[0]), elems[1..])
  }

  function Step(p: Path, e: Text): Path { if e == DOT then p else if e == DOTDOT then Pop(p) else Push(p, e) }

  lemma RenderPush(p: Path, e: Text)
    ensures Render(Push(p, e)) == Render(p) + [SLASH] + e
  {
    var q := p.stack + [e];
    assert q[..|p.stack|] == p.stack;
    assert Joined(q) == Joined(p.stack) + [SLASH] + e;
  }

  /** The path that a directory name stands for */
  function PathOf(s: Text): Path { Path(s != [] && s[0] == SLASH, Elements(s)) }

  // ---- cutting off the last element ----

  function TrimOne(s: Text): Text { if s != [] && s[|s| - 1] == SLASH then s[..|s| - 1] else s }

  /** The string without the separators at its end */
  function TrimSeps(s: Text): Text { if s != [] && s[|s| - 1] == SLASH then TrimSeps(s[..|s| - 1]) else s }

  /** The string without the separators at its end */
  lemma {:induction false} TrimIs(s: Text)
    ensures var t := TrimSeps(s);
            t <= s && (t == [] || t[|t| - 1] != SLASH) && forall i :: |t| <= i < |s| ==> s[i] == SLASH
  {
    if s != [] && s[|s| - 1] == SLASH { TrimIs(s[..|s| - 1]); }
  }

  /** The position of the last separator, -1 when there is none */
  function LastSep(s: Text): (n: int)
    ensures -1 <= n < |s| && SLASH !in s[n + 1..] && (n >= 0 ==> s[n] == SLASH)
  {
    if s == [] then -1 else if s[|s| - 1] == SLASH then |s| - 1 else LastSep(s[..|s| - 1])
  }

  function WithoutLast(s: Text): Text {
    var t := TrimSeps(s);
    TrimSeps(t[..LastSep(t) + 1])
  }

  /** The element that is cut off */
  function LastElement(s: Text): Text {
    var t := TrimSeps(s);
    t[LastSep(t) + 1..]
  }

  lemma {:induction false} TrimElements(s: Text)
    ensures Elements(TrimSeps(s)) == Elements(s)
  {
    if s != [] && s[|s| - 1] == SLASH {
      var t := s[..|s| - 1];
      TrimElements(t);
      ElementsConcat(t, []);
      assert t + [SLASH] + [] == s;
      assert Elements(t) + [] == Elements(t);
    }
  }

  lemma {:induction false} LastSepIs(a: Text, e: Text)
    requires SLASH !in e
    ensures LastSep(a + [SLASH] + e) == |a|
  {
    var s := a + [SLASH] + e;
    if e != [] {
      assert s[..|s| - 1] == a + [SLASH] + e[..|e| - 1];
      LastSepIs(a, e[..|e| - 1]);
    }
  }

  lemma {:induction false} LastSepNone(e: Text)
    requires SLASH !in e
    ensures LastSep(e) == -1
  {
    if e != [] { LastSepNone(e[..|e| - 1]); }
  }

  lemma CutName(a: Text, e: Text)
    requires SLASH !in e
    ensures Elements(a + [SLASH] + e) == Elements(a) + if e == [] then [] else [e]
    ensures Elements(TrimSeps(a + [SLASH])) == Elements(a)
  {
    ElementsConcat(a, e);
    ElementsConcat(a, []);
    ElementsOfRun(e);
    TrimElements(a + [SLASH]);
    hide Elements, TrimSeps;
    assert a + [SLASH] + [] == a + [SLASH] && Elements([]) == [] by { ElementsOfRun([]); }
    assert Elements(a) + [] == Elements(a);
  }

  lemma CutAt(s: Text, a: Text, e: Text)
    requires TrimSeps(s) == a + [SLASH] + e && Name(e)
    ensures LastElement(s) == e && Elements(s) == Elements(a) + [e] && Elements(WithoutLast(s)) == Elements(a)
  {
    TrimElements(s);
    LastSepIs(a, e);
    CutName(a, e);
    hide Elements, TrimSeps, LastSep;
    var t := a + [SLASH] + e;
    assert t[|a| + 1..] == e && t[..|a| + 1] == a + [SLASH];
  }

  lemma CutOnly(s: Text)
    requires SLASH !in TrimSeps(s)
    ensures WithoutLast(s) == [] && LastElement(s) == TrimSeps(s)
    ensures Elements(s) == if TrimSeps(s) == [] then [] else [TrimSeps(s)]
  {
    TrimElements(s);
    ElementsOfRun(TrimSeps(s));
    LastSepNone(TrimSeps(s));
    hide Elements, LastSep;
  }

  /** Of any string the element cut off is the last one, and the elements left are the others. */
  lemma CutOff(s: Text)
    ensures Elements(s) == [] ==> WithoutLast(s) == [] && LastElement(s) == []
    ensures Elements(s) != [] ==>
              && LastElement(s) == Elements(s)[|Elements(s)| - 1]
              && Elements(WithoutLast(s)) == Elements(s)[..|Elements(s)| - 1]
  {
    var t := TrimSeps(s);
    var n := LastSep(t);
    if n < 0 {
      assert t[n + 1..] == t;
      CutOnly(s);
      ElementsOfRun([]);
    } else {
      TrimIs(s);
      var a, e := t[..n], t[n + 1..];
      SplitAt(t, n);
      hide Elements, TrimSeps, LastSep, WithoutLast, LastElement;
      CutAt(s, a, e);
    }
  }

  lemma SplitAt(t: Text, n: nat)
    requires n < |t| && t[n] == SLASH && t[|t| - 1] != SLASH
    ensures t == t[..n] + [SLASH] + t[n + 1..] && t[n + 1..] != []
  {}

  lemma RenderTrimmed(p: Path)
    requires Names(p.stack)
    ensures TrimSeps(Render(p)) == Render(p) == TrimOne(Render(p))
  {
    if p.stack != [] {
      var e := p.stack[|p.stack| - 1];
      assert Name(e);
      var j := Joined(p.stack);
      assert |j| > 1 && j[|j| - 1] == e[|e| - 1];
    }
  }

  lemma WithoutPushed(t: Text, e: Text)
    requires Name(e) && TrimSeps(t) == t
    ensures WithoutLast(t + [SLASH] + e) == t
  {
    var s := t + [SLASH] + e;
    assert s[|s| - 1] == e[|e| - 1];
    LastSepIs(t, e);
    assert s[..|t| + 1] == t + [SLASH] && (t + [SLASH])[..|t|] == t;
  }

  lemma WithoutOnly(e: Text)
    requires Name(e)
    ensures WithoutLast(e) == []
  {
    LastSepNone(e);
  }

  /** Cutting off the last element is popping the stack. */
  lemma RenderPop(p: Path)
    requires Names(p.stack)
    ensures WithoutLast(Render(p)) == Render(Pop(p))
  {
    if p.stack != [] {
      var n := |p.stack| - 1;
      var e, q := p.stack[n], Path(p.lead, p.stack[..n]);
      assert Name(e) && Names(q.stack);
      if q.stack == [] && !p.lead {
        assert Joined(p.stack) == [] + [SLASH] + e;
        assert Render(p) == e;
        WithoutOnly(e);
      } else {
        hide WithoutLast, Joined;
        assert q.stack + [e] == p.stack;
        RenderPush(q, e);
        RenderTrimmed(q);
        WithoutPushed(Render(q), e);
      }
    }
  }

  // ---- duplicate separators ----

  predicate EndsWithSep(s: Text) { s != [] && s[|s| - 1] == SLASH }

  /** Each run of separators made one */
  function Squeeze(s: Text): Text {
    if s == [] then []
    else if EndsWithSep(s) && EndsWithSep(s[..|s| - 1]) then Squeeze(s[..|s| - 1])
    else Squeeze(s[..|s| - 1]) + [s[|s| - 1]]
  }

  lemma {:induction false} SqueezeRun(s: Text, e: Text)
    requires SLASH !in e
    ensures Squeeze(s + e) == Squeeze(s) + e
  {
    if e == [] {
      assert s + e == s;
    } else {
      var n := |e| - 1;
      assert (s + e)[..|s| + n] == s + e[..n];
      SqueezeRun(s, e[..n]);
      assert Squeeze(s) + e[..n] + [e[n]] == Squeeze(s) + e;
    }
  }

  lemma SqueezeSep(s: Text)
    ensures Squeeze(s + [SLASH]) == if EndsWithSep(s) then Squeeze(s) else Squeeze(s) + [SLASH]
  {
    assert (s + [SLASH])[..|s|] == s;
  }

  lemma ElementsOfRun(e: Text)
    requires SLASH !in e
    ensures Elements(e) == if e == [] then [] else [e]
  {
    if e != [] {
      ElementsOfName(e, []);
      assert e + [] == e;
    }
  }

  /** The only element-free strings are runs of separators. */
  lemma {:induction false} NoElements(s: Text)
    ensures Elements(s) == [] <==> forall i :: 0 <= i < |s| ==> s[i] == SLASH
  {
    if s != [] && s[0] == SLASH { NoElements(s[1..]); }
  }

  /** What a directory name looks like once its separators are squeezed */
  function Form(s: Text): Text {
    if Elements(s) == [] then (if s == [] then [] else [SLASH])
    else Render(PathOf(s)) + if EndsWithSep(s) then [SLASH] else []
  }

  lemma {:induction false} SqueezeForm(s: Text)
    ensures Squeeze(s) == Form(s)
    decreases |s|
  {
    var n := LastSep(s);
    var e := s[n + 1..];
    ElementsOfRun(e);
    if n < 0 {
      SqueezeRun([], e);
      FormOfRun(e);
      assert s == [] + e == e;
    } else {
      hide Squeeze, Elements, Form, LastSep;
      var a := s[..n];
      assert s == a + [SLASH] + e;
      SqueezeRun(a + [SLASH], e);
      SqueezeSep(a);
      SqueezeForm(a);
      ElementsConcat(a, e);
      NoElements(a);
      if e == [] {
        assert a + [SLASH] + e == a + [SLASH];
        FormSep(a);
      } else {
        FormName(a, e);
      }
    }
  }

  lemma FormOfRun(e: Text)
    requires SLASH !in e && Elements(e) == if e == [] then [] else [e]
    ensures Form(e) == e
  {
    assert Joined([e]) == [] + [SLASH] + e;
  }

  lemma FormSep(a: Text)
    requires Elements(a + [SLASH]) == Elements(a)
    requires Elements(a) == [] <==> forall i :: 0 <= i < |a| ==> a[i] == SLASH
    ensures Form(a + [SLASH]) == if EndsWithSep(a) then Form(a) else Form(a) + [SLASH]
  {
    hide Elements, Joined;
    assert a != [] ==> (a + [SLASH])[0] == a[0];
    assert EndsWithSep(a + [SLASH]);
  }

  lemma FormName(a: Text, e: Text)
    requires Name(e) && Elements(a + [SLASH] + e) == Elements(a) + [e]
    requires Elements(a) == [] <==> forall i :: 0 <= i < |a| ==> a[i] == SLASH
    ensures Form(a + [SLASH] + e) == (if EndsWithSep(a) then Form(a) else Form(a) + [SLASH]) + e
  {
    hide Elements, Render;
    LastOf(a, e);
    FormOfNamed(a + [SLASH] + e);
    if Elements(a) == [] { FormAfterSeps(a, e); } else { FormAfterNames(a, e); }
  }

  lemma LastOf(a: Text, e: Text)
    requires Name(e)
    ensures var s := a + [SLASH] + e; s != [] && !EndsWithSep(s) && s[0] == if a == [] then SLASH else a[0]
  {
    var s := a + [SLASH] + e;
    assert s[|s| - 1] == e[|e| - 1];
  }

  lemma FormOfNamed(s: Text)
    requires Elements(s) != [] && !EndsWithSep(s)
    ensures Form(s) == Render(PathOf(s))
  {
    hide Elements, Render;
  }

  /** A name after separators only */
  lemma FormAfterSeps(a: Text, e: Text)
    requires Elements(a) == [] && Elements(a + [SLASH] + e) == [] + [e] && forall i :: 0 <= i < |a| ==> a[i] == SLASH
    requires (a + [SLASH] + e)[0] == SLASH
    ensures Render(PathOf(a + [SLASH] + e)) == (if EndsWithSep(a) then Form(a) else Form(a) + [SLASH]) + e
  {
    hide Elements;
    RenderPush(Path(true, []), e);
    assert PathOf(a + [SLASH] + e) == Push(Path(true, []), e);
  }

  /** A name after names */
  lemma FormAfterNames(a: Text, e: Text)
    requires Elements(a) != [] && a != [] && Elements(a + [SLASH] + e) == Elements(a) + [e]
    requires (a + [SLASH] + e)[0] == a[0]
    ensures Render(PathOf(a + [SLASH] + e)) == (if EndsWithSep(a) then Form(a) else Form(a) + [SLASH]) + e
  {
    hide Elements, Render;
    RenderPush(PathOf(a), e);
    assert PathOf(a + [SLASH] + e) == Push(PathOf(a), e);
  }

  /** A directory name, squeezed and without its trailing separator, is the path it stands for. */
  lemma BaseOf(s: Text)
    ensures TrimOne(Squeeze(s)) == Render(PathOf(s))
  {
    SqueezeForm(s);
    ElementsAreNames(s);
    RenderTrimmed(PathOf(s));
    if Elements(s) != [] && EndsWithSep(s) {
      assert (Render(PathOf(s)) + [SLASH])[..|Render(PathOf(s))|] == Render(PathOf(s));
    }
  }
}
