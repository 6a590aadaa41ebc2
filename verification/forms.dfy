/** `selectValues` and `getSelected` over the options of a `<select>`. */
module Forms {
  import opened Js
  import opened Text
  import opened Document
  import opened Wrapper

  /** The values `selectValues` looks for: an array as it is; anything else
      converted to a string, split on commas, each piece trimmed. */
  function WantedValues(values: Value): seq<Value> {
    match values
    case Array(items) => items
    case Str(s) => SplitValues(s)
    case _ => SplitValues(ToStr(values))
  }

  /** `s.split(',').map(s => s.trim())`. */
  function SplitValues(s: string): seq<Value> {
    var parts := SplitOn(s, ',');
    seq(|parts|, i requires 0 <= i < |parts| => Str(Trim(parts[i])))
  }

  function StrValues(vs: seq<string>): (r: seq<Value>)
    ensures |r| == |vs| && forall i :: 0 <= i < |vs| ==> r[i] == Str(vs[i])
  {
    seq(|vs|, i requires 0 <= i < |vs| => Str(vs[i]))
  }

  /** Passing the comma-joined string looks for the same values as passing
      the list itself, when no value holds a comma or surrounding whitespace. */
  lemma WantedOfJoined(vs: seq<string>)
    requires |vs| >= 1
    requires forall i :: 0 <= i < |vs| ==> ',' !in vs[i] && Trim(vs[i]) == vs[i]
    ensures WantedValues(Str(JoinWith(vs, ','))) == StrValues(vs)
  {
    SplitValuesOfJoined(vs);
  }

  lemma SplitValuesOfJoined(vs: seq<string>)
    requires |vs| >= 1
    requires forall i :: 0 <= i < |vs| ==> ',' !in vs[i] && Trim(vs[i]) == vs[i]
    ensures SplitValues(JoinWith(vs, ',')) == StrValues(vs)
  {
    SplitJoin(vs, ',');
  }

  /** `clearField` defaults to true, so only a given falsy value keeps the
      previous selection. */
  predicate Clears(clearField: Value) {
    clearField.Undefined? || Truthy(clearField)
  }

  /** The first loop: every option deselected. */
  function ClearAll(opts: seq<SelectOption>): (r: seq<SelectOption>)
    ensures |r| == |opts|
  {
    seq(|opts|, i requires 0 <= i < |opts| => opts[i].(selected := false))
  }

  /** The second loop: every wanted option selected, the others untouched. */
  function MarkWanted(opts: seq<SelectOption>, wanted: string -> bool): (r: seq<SelectOption>)
    ensures |r| == |opts|
  {
    seq(|opts|, i requires 0 <= i < |opts| =>
      if wanted(opts[i].value) then opts[i].(selected := true) else opts[i])
  }

  function Reselect(opts: seq<SelectOption>, clear: bool, wanted: string -> bool): (r: seq<SelectOption>)
    ensures |r| == |opts|
    ensures forall i :: 0 <= i < |opts| ==>
      r[i].value == opts[i].value && r[i].text == opts[i].text
      && (r[i].selected <==> wanted(opts[i].value) || (!clear && opts[i].selected))
  {
    MarkWanted(if clear then ClearAll(opts) else opts, wanted)
  }

  /** What `selectValues` does to the document. */
  datatype Selection = Unchanged | Reselected(select: Node, options: seq<SelectOption>)

  /** The first element, when it is a `<select>`. */
  function SelectTarget(d: Dom, w: NJ): Option<Node> {
    if Holds(w, 0) && w.elements[0].NodeRef? && d.tagOf(w.elements[0].node) == "SELECT"
    then Some(w.elements[0].node) else None
  }

  function Includes(vals: seq<Value>): string -> bool {
    v => Str(v) in vals
  }

  function InSet(vals: set<Value>): string -> bool {
    v => Str(v) in vals
  }

  /** `selectValues(values, clearField)` with the `includes` test. It changes
      nothing unless the first element is a `<select>`; with `clearField` an
      option ends up selected exactly when its value is wanted, without it
      previously selected options stay selected. */
  function SelectValues(d: Dom, w: NJ, values: Value, clearField: Value): (r: Result<Selection>)
    ensures SelectTarget(d, w).None? ==> r == Ok(Unchanged)
    ensures SelectTarget(d, w).Some? ==> (r.Ok? <==> d.optionsOf(SelectTarget(d, w).value).Some?)
    ensures r.Ok? && SelectTarget(d, w).Some? ==> r.value.Reselected?
    ensures r.Ok? && r.value.Reselected? ==>
      SelectTarget(d, w) == Some(r.value.select)
      && d.optionsOf(r.value.select).Some?
      && var opts := d.optionsOf(r.value.select).value;
      var vals := WantedValues(values);
      |r.value.options| == |opts|
      && forall i :: 0 <= i < |opts| ==>
           r.value.options[i].value == opts[i].value
           && r.value.options[i].text == opts[i].text
           && (r.value.options[i].selected <==>
                 Str(opts[i].value) in vals || (!Clears(clearField) && opts[i].selected))
  {
    ApplySelection(d, w, Clears(clearField), Includes(WantedValues(values)))
  }

  /** The shared shape of both variants: find the `<select>`, then reselect
      its options by the membership test `wanted`. */
  function ApplySelection(d: Dom, w: NJ, clear: bool, wanted: string -> bool): Result<Selection> {
    match SelectTarget(d, w)
    case None => Ok(Unchanged)
    case Some(n) =>
      match d.optionsOf(n)
      case None => Err(TypeError)
      case Some(opts) => Ok(Reselected(n, Reselect(opts, clear, wanted)))
  }

  /** The same operation written with a `Set` of the wanted values. */
  function SelectValuesSet(d: Dom, w: NJ, values: Value, clearField: Value): Result<Selection> {
    var vals := WantedValues(values);
    ApplySelection(d, w, Clears(clearField), InSet(set x | x in vals))
  }

  /** Reselecting depends only on which values are wanted. */
  lemma ReselectSameWanted(opts: seq<SelectOption>, clear: bool, f: string -> bool, g: string -> bool)
    requires forall i :: 0 <= i < |opts| ==> f(opts[i].value) == g(opts[i].value)
    ensures Reselect(opts, clear, f) == Reselect(opts, clear, g)
  {
    var a := Reselect(opts, clear, f);
    var b := Reselect(opts, clear, g);
    assert forall i :: 0 <= i < |opts| ==> a[i] == b[i];
  }

  /** The `Set` variant and the `includes` variant always agree. */
  lemma SelectValuesSetAgrees(d: Dom, w: NJ, values: Value, clearField: Value)
    ensures SelectValuesSet(d, w, values, clearField) == SelectValues(d, w, values, clearField)
  {
    SetAndIncludesAgree(d, w, Clears(clearField), WantedValues(values));
  }

  lemma SetAndIncludesAgree(d: Dom, w: NJ, clear: bool, vals: seq<Value>)
    ensures ApplySelection(d, w, clear, InSet(set x | x in vals))
         == ApplySelection(d, w, clear, Includes(vals))
  {
    var t := SelectTarget(d, w);
    if t.Some? && d.optionsOf(t.value).Some? {
      var opts := d.optionsOf(t.value).value;
      var s := set x | x in vals;
      assert forall v :: InSet(s)(v) == Includes(vals)(v);
      ReselectSameWanted(opts, clear, InSet(s), Includes(vals));
    }
  }

  /** What `getSelected` reports for one option: its value, or its text when
      the value is empty. */
  function Label(o: SelectOption): string {
    if o.value != "" then o.value else o.text
  }

  /** The labels of the selected options, in option order. */
  function SelectedLabels(opts: seq<SelectOption>): seq<string> {
    if |opts| == 0 then []
    else
      var last := opts[|opts| - 1];
      SelectedLabels(opts[..|opts| - 1]) + (if last.selected then [Label(last)] else [])
  }

  /** A label is reported exactly when some selected option carries it. */
  lemma {:induction false} SelectedLabelsMembers(opts: seq<SelectOption>, x: string)
    ensures x in SelectedLabels(opts) <==>
      exists i :: 0 <= i < |opts| && opts[i].selected && Label(opts[i]) == x
    decreases |opts|
  {
    if |opts| > 0 {
      var p := opts[..|opts| - 1];
      SelectedLabelsMembers(p, x);
      assert forall i :: 0 <= i < |p| ==> p[i] == opts[i];
    }
  }

  /** The result `getSelected` specifies: `[]` without a first element, a
      TypeError when that element has no options. */
  function GetSelectedSpec(d: Dom, w: NJ): Result<seq<string>> {
    if !Holds(w, 0) then Ok([])
    else if w.elements[0].NodeRef? && d.optionsOf(w.elements[0].node).Some? then
      Ok(SelectedLabels(d.optionsOf(w.elements[0].node).value))
    else Err(TypeError)
  }

  /** `getSelected()`: the loop over the options. */
  method GetSelected(d: Dom, w: NJ) returns (r: Result<seq<string>>)
    ensures r == GetSelectedSpec(d, w)
  {
    if !Holds(w, 0) {
      return Ok([]);
    }
    var el := w.elements[0];
    if !el.NodeRef? || d.optionsOf(el.node).None? {
      return Err(TypeError);
    }
    var opts := d.optionsOf(el.node).value;
    var res: seq<string> := [];
    var i := 0;
    while i < |opts|
      invariant 0 <= i <= |opts|
      invariant res == SelectedLabels(opts[..i])
    {
      assert opts[..i + 1][..i] == opts[..i];
      if opts[i].selected {
        res := res + [Label(opts[i])];
      }
      i := i + 1;
    }
    assert opts[..|opts|] == opts;
    r := Ok(res);
  }

  /** After `selectValues` with clearing, `getSelected` reports exactly the
      labels of the options whose value was asked for. */
  lemma GetAfterSelect(d: Dom, w: NJ, values: Value, x: string)
    requires SelectTarget(d, w).Some? && d.optionsOf(SelectTarget(d, w).value).Some?
    ensures SelectValues(d, w, values, Undefined).Ok?
    ensures var sel := SelectValues(d, w, values, Undefined).value;
            var opts := d.optionsOf(SelectTarget(d, w).value).value;
            sel.Reselected? &&
            (x in SelectedLabels(sel.options) <==>
              exists i :: 0 <= i < |opts| && Str(opts[i].value) in WantedValues(values) && Label(opts[i]) == x)
  {
    var sel := SelectValues(d, w, values, Undefined).value;
    var opts := d.optionsOf(SelectTarget(d, w).value).value;
    var vals := WantedValues(values);
    assert sel == Reselected(SelectTarget(d, w).value, Reselect(opts, true, Includes(vals)));
    SelectedLabelsMembers(sel.options, x);
    assert forall i :: 0 <= i < |opts| ==> Label(sel.options[i]) == Label(opts[i]);
  }
}
