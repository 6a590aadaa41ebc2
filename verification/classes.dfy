/** `addClass` / `removeClass`: the class argument is split on whitespace
    into tokens, and every element's class list gains or loses them. */
module Classes {
  import opened Js
  import opened Text
  import opened Document
  import opened Selector
  import opened Wrapper

  /** What the class argument asks for. */
  datatype ClassEdit = NoChange | Tokens(tokens: seq<string>)

  /** `if (!cls) return this; cls.split(/\s+/).filter(Boolean)`. A truthy
      value that is not a string has no `split` method. */
  function ClassTokens(cls: Value): (r: Result<ClassEdit>)
    ensures !Truthy(cls) ==> r == Ok(NoChange)
    ensures Truthy(cls) && !cls.Str? ==> r == Err(TypeError)
    ensures r.Ok? && r.value.Tokens? ==>
      forall i :: 0 <= i < |r.value.tokens| ==> |r.value.tokens[i]| > 0 && NoWs(r.value.tokens[i])
  {
    if !Truthy(cls) then Ok(NoChange)
    else if cls.Str? then Ok(Tokens(Words(cls.s)))
    else Err(TypeError)
  }

  /** Class names written with single spaces are split back into the same names. */
  lemma ClassTokensOfJoined(names: seq<string>)
    requires |names| > 0
    requires forall i :: 0 <= i < |names| ==> |names[i]| > 0 && NoWs(names[i])
    ensures ClassTokens(Str(JoinWith(names, ' '))) == Ok(Tokens(names))
  {
    WordsOfJoin(names);
    JoinHead(names, ' ');
  }

  /** The class lists of all elements, and the wrapper returned for chaining. */
  datatype ClassResult = ClassResult(wrapper: NJ, classes: Value -> set<string>)

  function TokenSet(ts: seq<string>): set<string> {
    set t | t in ts
  }

  /** Every element has a `classList`, that is, is an element node: the
      window (which 3.0.1 can wrap), `document` and text or comment nodes
      have none, and calling a method on a missing list throws. */
  predicate HasClassLists(d: Dom, w: NJ) {
    forall i :: 0 <= i < |w.elements| ==> w.elements[i].NodeRef? && IsElementNode(d, w.elements[i].node)
  }

  /** `addClass(cls)`: each element's class list gains every token; other
      class lists and the wrapper are unchanged. Past the guard, an element
      without a class list makes the call throw. */
  function AddClass(d: Dom, w: NJ, classes: Value -> set<string>, cls: Value): (r: Result<ClassResult>)
    ensures r.Err? <==> ClassTokens(cls).Err? || (ClassTokens(cls).value.Tokens? && !HasClassLists(d, w))
    ensures r.Ok? ==> r.value.wrapper == w
    ensures r.Ok? ==> forall x :: x !in w.elements ==> r.value.classes(x) == classes(x)
    ensures r.Ok? && ClassTokens(cls).value.Tokens? ==>
      forall x :: x in w.elements ==>
        r.value.classes(x) == classes(x) + TokenSet(ClassTokens(cls).value.tokens)
    ensures r.Ok? && ClassTokens(cls).value.NoChange? ==> r.value.classes == classes
  {
    match ClassTokens(cls)
    case Err(e) => Err(e)
    case Ok(NoChange) => Ok(ClassResult(w, classes))
    case Ok(Tokens(ts)) =>
      if !HasClassLists(d, w) then Err(TypeError)
      else Ok(ClassResult(w, x => if x in w.elements then classes(x) + TokenSet(ts) else classes(x)))
  }

  /** `removeClass(cls)`: each element's class list loses every token. */
  function RemoveClass(d: Dom, w: NJ, classes: Value -> set<string>, cls: Value): (r: Result<ClassResult>)
    ensures r.Err? <==> ClassTokens(cls).Err? || (ClassTokens(cls).value.Tokens? && !HasClassLists(d, w))
    ensures r.Ok? ==> r.value.wrapper == w
    ensures r.Ok? ==> forall x :: x !in w.elements ==> r.value.classes(x) == classes(x)
    ensures r.Ok? && ClassTokens(cls).value.Tokens? ==>
      forall x :: x in w.elements ==>
        r.value.classes(x) == classes(x) - TokenSet(ClassTokens(cls).value.tokens)
    ensures r.Ok? && ClassTokens(cls).value.NoChange? ==> r.value.classes == classes
  {
    match ClassTokens(cls)
    case Err(e) => Err(e)
    case Ok(NoChange) => Ok(ClassResult(w, classes))
    case Ok(Tokens(ts)) =>
      if !HasClassLists(d, w) then Err(TypeError)
      else Ok(ClassResult(w, x => if x in w.elements then classes(x) - TokenSet(ts) else classes(x)))
  }

  /** 3.0.1's `nj(window).addClass('a')` throws, since the window has no
      class list; the later versions wrap no window, so the call succeeds. */
  lemma WindowClassThrows(d: Dom, classes: Value -> set<string>)
    ensures AddClass(d, Nj(V301, d, Window).value, classes, Str("a")).Err?
    ensures AddClass(d, Nj(V303, d, Window).value, classes, Str("a")).Ok?
  {
    NjWindow(d);
    assert !IsWs('a');
    WordsOfWord("a");
    assert ClassTokens(Str("a")) == Ok(Tokens(["a"]));
    assert !HasClassLists(d, Nj(V301, d, Window).value) by {
      assert Nj(V301, d, Window).value.elements[0] == Window;
    }
  }

  /** A node that is not an element (`document`, a text or a comment node)
      has no class list, so adding or removing a class on it throws. */
  lemma NonElementClassThrows(d: Dom, n: Node, classes: Value -> set<string>)
    requires !IsElementNode(d, n)
    ensures AddClass(d, NJ([NodeRef(n)]), classes, Str("a")) == Err(TypeError)
    ensures RemoveClass(d, NJ([NodeRef(n)]), classes, Str("a")) == Err(TypeError)
  {
    assert !IsWs('a');
    WordsOfWord("a");
    assert ClassTokens(Str("a")) == Ok(Tokens(["a"]));
    assert !HasClassLists(d, NJ([NodeRef(n)])) by {
      assert NJ([NodeRef(n)]).elements[0] == NodeRef(n);
    }
  }

  /** Removing what was just added leaves each element with its old classes
      minus the tokens, whatever it had before, and every other class list
      as it was. */
  lemma AddThenRemove(d: Dom, w: NJ, classes: Value -> set<string>, s: string, x: Value)
    requires s != ""
    ensures AddClass(d, w, classes, Str(s)).Ok? <==> HasClassLists(d, w)
    ensures HasClassLists(d, w) ==>
            var added := AddClass(d, w, classes, Str(s)).value;
            var removed := RemoveClass(d, w, added.classes, Str(s)).value;
            removed.classes(x) == if x in w.elements then classes(x) - TokenSet(Words(s)) else classes(x)
  {
  }

  /** A whitespace-only argument passes the guard but yields no tokens. */
  lemma BlankClassIsNoOp(d: Dom, w: NJ, classes: Value -> set<string>)
    ensures ClassTokens(Str("  ")) == Ok(Tokens([]))
    ensures AddClass(d, w, classes, Str("  ")).Ok? <==> HasClassLists(d, w)
    ensures HasClassLists(d, w) ==> forall x :: AddClass(d, w, classes, Str("  ")).value.classes(x) == classes(x)
  {
    assert IsWs(' ');
    assert Words("  ") == [] by {
      assert LeadingWs("  "[1..]) == 1 by { LeadingWsIs(" ", 1); }
      LeadingWsIs("  ", 2);
    }
  }
}
