/** Dataset-driven path resolution: `gDV`, `Dia`, `gRO` and `bDV`.
    A data attribute found on the first element or an ancestor names a
    dot-separated path that is resolved from the global scope. */
module DataPath {
  import opened Js
  import opened Text
  import opened Document
  import opened Selector
  import opened Wrapper

  /** `el.dataset && el.dataset[ds]`: the value of a node's data key when it
      is present and non-empty. */
  function DataAt(d: Dom, n: Node, ds: string): (r: Option<string>)
    ensures r.Some? ==> r.value != "" && d.dataOf(n, ds) == r
    ensures r.None? ==> d.dataOf(n, ds).None? || d.dataOf(n, ds) == Some("")
  {
    match d.dataOf(n, ds)
    case Some(s) => if s != "" then Some(s) else None
    case None => None
  }

  /** The climb `while (el) { ...; el = el.parentElement; }` from node `n`. */
  function FindFrom(d: Dom, n: Node, ds: string): (r: Option<string>)
    requires Acyclic(d)
    ensures r.Some? ==> r.value != ""
    decreases d.depth(n)
  {
    if DataAt(d, n, ds).Some? then DataAt(d, n, ds)
    else match d.parentOf(n)
      case None => None
      case Some(p) => FindFrom(d, p, ds)
  }

  /** The first non-empty data value along a chain of nodes. */
  function FirstData(d: Dom, chain: seq<Node>, ds: string): (r: Option<string>)
    ensures r.Some? <==> exists i :: 0 <= i < |chain| && DataAt(d, chain[i], ds).Some?
    ensures r.Some? ==>
      exists i :: 0 <= i < |chain| && r == DataAt(d, chain[i], ds)
        && forall j :: 0 <= j < i ==> DataAt(d, chain[j], ds).None?
  {
    if |chain| == 0 then None
    else if DataAt(d, chain[0], ds).Some? then DataAt(d, chain[0], ds)
    else
      assert forall i :: 1 <= i < |chain| ==> chain[i] == chain[1..][i - 1];
      var r := FirstData(d, chain[1..], ds);
      if r.Some? then
        var k :| 0 <= k < |chain[1..]| && r == DataAt(d, chain[1..][k], ds)
          && forall j :: 0 <= j < k ==> DataAt(d, chain[1..][j], ds).None?;
        assert forall j :: 0 <= j < k + 1 ==> DataAt(d, chain[j], ds).None? by {
          forall j | 0 <= j < k + 1 ensures DataAt(d, chain[j], ds).None? {
            if j > 0 { assert chain[j] == chain[1..][j - 1]; }
          }
        }
        r
      else r
  }

  /** Whatever non-empty entry comes first along the chain is the one found. */
  lemma FirstDataNearest(d: Dom, chain: seq<Node>, ds: string, i: nat)
    requires i < |chain| && DataAt(d, chain[i], ds).Some?
    requires forall j :: 0 <= j < i ==> DataAt(d, chain[j], ds).None?
    ensures FirstData(d, chain, ds) == DataAt(d, chain[i], ds)
  {
    var r := FirstData(d, chain, ds);
    assert r.Some?;
    var k :| 0 <= k < |chain| && r == DataAt(d, chain[k], ds)
      && forall j :: 0 <= j < k ==> DataAt(d, chain[j], ds).None?;
    assert !(k < i) && !(i < k);
  }

  /** The climb finds the value of the nearest node on the ancestor chain
      that carries the key. */
  lemma {:induction false} FindFromAncestors(d: Dom, n: Node, ds: string)
    requires Acyclic(d)
    ensures FindFrom(d, n, ds) == FirstData(d, Ancestors(d, n), ds)
    decreases d.depth(n)
  {
    var chain := Ancestors(d, n);
    if DataAt(d, n, ds).None? {
      match d.parentOf(n)
      case None =>
        assert chain == [n];
        assert chain[1..] == [];
      case Some(p) =>
        FindFromAncestors(d, p, ds);
        assert chain[1..] == Ancestors(d, p);
    }
  }

  /** The climb starting at the wrapper's first element; the window (3.0.1)
      has neither a dataset nor a parent. */
  function FindData(d: Dom, w: NJ, ds: string): (r: Option<string>)
    requires Acyclic(d)
    ensures r.Some? ==> r.value != ""
  {
    if Holds(w, 0) && w.elements[0].NodeRef? then FindFrom(d, w.elements[0].node, ds) else None
  }

  /** `gDV(ds)`: the data value found, or `false`. */
  function GDV(d: Dom, w: NJ, ds: string): (r: Value)
    requires Acyclic(d)
    ensures r == Bool(false) || (r.Str? && r.s != "")
    ensures r.Str? ==> FindData(d, w, ds) == Some(r.s)
  {
    match FindData(d, w, ds)
    case Some(s) => Str(s)
    case None => Bool(false)
  }

  /** `gDV` answers false exactly when neither the first element nor any of
      its ancestors carries a non-empty value for the key. */
  lemma GDVFalseIff(d: Dom, w: NJ, ds: string)
    requires Acyclic(d)
    ensures GDV(d, w, ds) == Bool(false) <==>
      !(Holds(w, 0) && w.elements[0].NodeRef?
        && exists i :: 0 <= i < |Ancestors(d, w.elements[0].node)|
             && DataAt(d, Ancestors(d, w.elements[0].node)[i], ds).Some?)
  {
    if Holds(w, 0) && w.elements[0].NodeRef? {
      FindFromAncestors(d, w.elements[0].node, ds);
    }
  }

  /** `gDV` returns the value of the nearest node, from the first element
      upwards, that carries a non-empty entry for the key. */
  lemma GDVNearest(d: Dom, w: NJ, ds: string, i: nat)
    requires Acyclic(d) && Holds(w, 0) && w.elements[0].NodeRef?
    requires var chain := Ancestors(d, w.elements[0].node);
      i < |chain| && DataAt(d, chain[i], ds).Some?
      && forall j :: 0 <= j < i ==> DataAt(d, chain[j], ds).None?
    ensures GDV(d, w, ds) == Str(DataAt(d, Ancestors(d, w.elements[0].node)[i], ds).value)
  {
    FindFromAncestors(d, w.elements[0].node, ds);
    FirstDataNearest(d, Ancestors(d, w.elements[0].node), ds, i);
  }

  // ---------------------------------------------------------------------
  // Path walks
  // ---------------------------------------------------------------------

  /** `parts[i]`, which is undefined (used as the key "undefined") past the end. */
  function SegmentKey(parts: seq<string>, i: nat): string {
    if i < |parts| then parts[i] else "undefined"
  }

  /** The keys `parts[1] .. parts[depth - 1]` the loop `for (i = 1; i < depth; i++)` reads. */
  function Keys(parts: seq<string>, depth: int): (keys: seq<string>)
    ensures |keys| == if depth <= 1 then 0 else depth - 1
  {
    if depth <= 1 then []
    else seq(depth - 1, i requires 0 <= i < depth - 1 => SegmentKey(parts, i + 1))
  }

  /** Within the path the keys are its remaining segments. */
  lemma KeysWithin(parts: seq<string>, depth: int)
    requires 1 <= depth <= |parts|
    ensures Keys(parts, depth) == parts[1..depth]
  {
  }

  /** The walk of `Dia` in 3.0.2 and 3.0.3: stop with undefined at a null or
      undefined intermediate value. */
  function WalkNullish(v: Value, keys: seq<string>): Value
    decreases |keys|
  {
    if |keys| == 0 then v
    else if Nullish(v) then Undefined
    else WalkNullish(PropOf(v, keys[0]), keys[1..])
  }

  /** The walk of `Dia` in 3.0.1 and of `bDV` in 3.0.2 and 3.0.3:
      `tmp = tmp ? tmp[key] : undefined`. */
  function WalkFalsy(v: Value, keys: seq<string>): Value
    decreases |keys|
  {
    if |keys| == 0 then v
    else WalkFalsy(if Truthy(v) then PropOf(v, keys[0]) else Undefined, keys[1..])
  }

  /** The walk of `bDV` in 3.0.1: `val = val[key]`, which throws on a null or
      undefined intermediate value. */
  function WalkStrict(v: Value, keys: seq<string>): Result<Value>
    decreases |keys|
  {
    if |keys| == 0 then Ok(v)
    else match Get(v, keys[0])
      case Err(e) => Err(e)
      case Ok(next) => WalkStrict(next, keys[1..])
  }

  /** Once undefined, a guarded walk stays undefined. */
  lemma {:induction false} UndefinedStays(keys: seq<string>)
    ensures WalkNullish(Undefined, keys) == Undefined
    ensures WalkFalsy(Undefined, keys) == Undefined
    decreases |keys|
  {
    if |keys| > 0 {
      UndefinedStays(keys[1..]);
    }
  }

  /** The null guard yields exactly what the unguarded walk yields when that
      walk does not throw, and undefined when it does. */
  lemma {:induction false} NullishIsGuardedStrict(v: Value, keys: seq<string>)
    ensures WalkNullish(v, keys) ==
      (if WalkStrict(v, keys).Ok? then WalkStrict(v, keys).value else Undefined)
    decreases |keys|
  {
    if |keys| > 0 && !Nullish(v) {
      NullishIsGuardedStrict(PropOf(v, keys[0]), keys[1..]);
    }
  }

  /** When the unguarded walk throws, the falsy-guarded one yields undefined. */
  lemma {:induction false} StrictErrFalsyUndefined(v: Value, keys: seq<string>)
    requires WalkStrict(v, keys).Err?
    ensures WalkFalsy(v, keys) == Undefined
    decreases |keys|
  {
    if Nullish(v) {
      UndefinedStays(keys[1..]);
    } else if Truthy(v) {
      StrictErrFalsyUndefined(PropOf(v, keys[0]), keys[1..]);
    } else {
      UndefinedStays(keys[1..]);
    }
  }

  predicate NoLengthKey(keys: seq<string>) {
    forall i :: 0 <= i < |keys| ==> keys[i] != "length"
  }

  /** The two guards differ only on a falsy value that is not null or
      undefined, which in this model has a property only as the empty
      string's `length`: without that key the walks agree. */
  lemma {:induction false} NullishFalsyAgree(v: Value, keys: seq<string>)
    requires NoLengthKey(keys)
    ensures WalkNullish(v, keys) == WalkFalsy(v, keys)
    decreases |keys|
  {
    if |keys| > 0 {
      if Nullish(v) {
        UndefinedStays(keys[1..]);
      } else {
        NullishFalsyAgree(PropOf(v, keys[0]), keys[1..]);
      }
    }
  }

  /** On `"".length` the guards disagree: the null guard reads 0, the falsy
      guard gives undefined. */
  lemma EmptyStringLength()
    ensures WalkNullish(Str(""), ["length"]) == Num(0)
    ensures WalkFalsy(Str(""), ["length"]) == Undefined
    ensures WalkStrict(Str(""), ["length"]) == Ok(Num(0))
  {
  }

  /** Walking a path in two pieces is walking it at once. */
  lemma {:induction false} WalkNullishAppend(v: Value, a: seq<string>, b: seq<string>)
    ensures WalkNullish(v, a + b) == WalkNullish(WalkNullish(v, a), b)
    decreases |a|
  {
    if |a| == 0 {
      assert a + b == b;
    } else if Nullish(v) {
      UndefinedStays(b);
    } else {
      assert (a + b)[1..] == a[1..] + b;
      WalkNullishAppend(PropOf(v, a[0]), a[1..], b);
    }
  }

  lemma {:induction false} WalkFalsyAppend(v: Value, a: seq<string>, b: seq<string>)
    ensures WalkFalsy(v, a + b) == WalkFalsy(WalkFalsy(v, a), b)
    decreases |a|
  {
    if |a| == 0 {
      assert a + b == b;
    } else {
      assert (a + b)[1..] == a[1..] + b;
      WalkFalsyAppend(if Truthy(v) then PropOf(v, a[0]) else Undefined, a[1..], b);
    }
  }

  // ---------------------------------------------------------------------
  // Dia, gRO, bDV
  // ---------------------------------------------------------------------

  /** The walk `Dia` takes: falsy-guarded in 3.0.1, null-guarded later. */
  function DiaWalk(ver: Version, v: Value, keys: seq<string>): Value {
    if ver == V301 then WalkFalsy(v, keys) else WalkNullish(v, keys)
  }

  /** `Dia(ds, deep)` with the global scope `scope`; `deep` is None when
      undefined. */
  function Dia(ver: Version, d: Dom, w: NJ, ds: string, deep: Option<int>, scope: Value): (r: Value)
    requires Acyclic(d)
    ensures FindData(d, w, ds).None? ==> r == Bool(false)
  {
    match FindData(d, w, ds)
    case None => Bool(false)
    case Some(s) =>
      var parts := SplitOn(s, '.');
      var depth := if deep.None? then |parts| else deep.value;
      DiaWalk(ver, PropOf(scope, parts[0]), Keys(parts, depth))
  }

  /** `gRO(ds)`: the global named by the first path segment. */
  function GRO(d: Dom, w: NJ, ds: string, scope: Value): (r: Value)
    requires Acyclic(d)
    ensures FindData(d, w, ds).None? ==> r == Undefined
  {
    match FindData(d, w, ds)
    case None => Undefined
    case Some(s) => PropOf(scope, SplitOn(s, '.')[0])
  }

  /** With a depth of at most one, `Dia` walks no step and returns the root
      object `gRO` names. */
  lemma DiaShallowIsGRO(ver: Version, d: Dom, w: NJ, ds: string, k: int, scope: Value)
    requires Acyclic(d) && k <= 1
    requires FindData(d, w, ds).Some?
    ensures Dia(ver, d, w, ds, Some(k), scope) == GRO(d, w, ds, scope)
  {
  }

  /** `Dia` without a depth resolves the whole path; with a depth `k` inside
      the path it resolves the segments before `k`, and the rest of the path
      continues from there. */
  lemma DiaDepth(ver: Version, d: Dom, w: NJ, ds: string, k: int, scope: Value)
    requires Acyclic(d)
    requires FindData(d, w, ds).Some?
    requires 1 <= k <= |SplitOn(FindData(d, w, ds).value, '.')|
    ensures var parts := SplitOn(FindData(d, w, ds).value, '.');
            var root := PropOf(scope, parts[0]);
            Dia(ver, d, w, ds, Some(k), scope) == DiaWalk(ver, root, parts[1..k])
            && Dia(ver, d, w, ds, None, scope) == DiaWalk(ver, Dia(ver, d, w, ds, Some(k), scope), parts[k..])
  {
    var parts := SplitOn(FindData(d, w, ds).value, '.');
    var root := PropOf(scope, parts[0]);
    KeysWithin(parts, k);
    KeysWithin(parts, |parts|);
    assert parts[1..|parts|] == parts[1..k] + parts[k..];
    if ver == V301 {
      WalkFalsyAppend(root, parts[1..k], parts[k..]);
    } else {
      WalkNullishAppend(root, parts[1..k], parts[k..]);
    }
  }

  /** 3.0.1's `Dia` and the later one agree unless the path reads `length`
      of an empty string. */
  lemma DiaVersions(d: Dom, w: NJ, ds: string, deep: Option<int>, scope: Value)
    requires Acyclic(d)
    requires FindData(d, w, ds).Some?
    requires var parts := SplitOn(FindData(d, w, ds).value, '.');
             NoLengthKey(Keys(parts, if deep.None? then |parts| else deep.value))
    ensures Dia(V301, d, w, ds, deep, scope) == Dia(V303, d, w, ds, deep, scope)
  {
    var parts := SplitOn(FindData(d, w, ds).value, '.');
    var keys := Keys(parts, if deep.None? then |parts| else deep.value);
    NullishFalsyAgree(PropOf(scope, parts[0]), keys);
  }

  /** `nj.bDV(dvar)`: resolve the whole path from the global scope. 3.0.1
      reads every segment unguarded, the later versions guard on falsy. */
  function BDV(ver: Version, dvar: string, scope: Value): (r: Result<Value>)
    ensures ver != V301 ==> r.Ok?
  {
    var parts := SplitOn(dvar, '.');
    var start := PropOf(scope, parts[0]);
    if ver == V301 then WalkStrict(start, parts[1..]) else Ok(WalkFalsy(start, parts[1..]))
  }

  /** Wherever the unguarded 3.0.1 `bDV` throws, the later guarded one gives
      undefined; when it does not throw, both agree unless the path reads
      `length` of an empty string. */
  lemma BDVVersions(dvar: string, scope: Value)
    ensures BDV(V301, dvar, scope).Err? ==> BDV(V303, dvar, scope) == Ok(Undefined)
    ensures NoLengthKey(SplitOn(dvar, '.')[1..]) && BDV(V301, dvar, scope).Ok?
            ==> BDV(V301, dvar, scope) == BDV(V303, dvar, scope)
  {
    var parts := SplitOn(dvar, '.');
    var start := PropOf(scope, parts[0]);
    var keys := parts[1..];
    if WalkStrict(start, keys).Err? {
      StrictErrFalsyUndefined(start, keys);
    }
    if NoLengthKey(keys) {
      NullishFalsyAgree(start, keys);
      NullishIsGuardedStrict(start, keys);
    }
  }
}
