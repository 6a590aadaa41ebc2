/** The cookie helper: the assignment string `cookie.set` writes to
    `document.cookie`, its attributes (Expires, Path, Domain and Secure as
    named in section 4.1.2 of RFC 6265, plus SameSite), `remove`, and `get`. */
module Cookie {
  import opened Js
  import opened Text

  /** One attribute of a cookie assignment. */
  datatype Attr =
    | Expires(date: string)
    | Path(path: string)
    | Secure
    | SameSite(policy: string)
    | Domain(domain: string)

  /** A cookie assignment: `name=value` followed by its attributes. */
  datatype CookieLine = CookieLine(name: string, value: string, attrs: seq<Attr>)

  /** The text of one attribute after its `;` separator. */
  function AttrText(a: Attr): string {
    match a
    case Expires(x) => " expires=" + x
    case Path(p) => " path=" + p
    case Secure => " Secure"
    case SameSite(s) => " SameSite=" + s
    case Domain(x) => " Domain=" + x
  }

  /** `; attr1; attr2 ...` */
  function AttrsText(attrs: seq<Attr>): string {
    if |attrs| == 0 then "" else ";" + AttrText(attrs[0]) + AttrsText(attrs[1..])
  }

  function Serialize(c: CookieLine): string {
    c.name + "=" + c.value + AttrsText(c.attrs)
  }

  lemma {:induction false} AttrsTextAppend(a: seq<Attr>, b: seq<Attr>)
    ensures AttrsText(a + b) == AttrsText(a) + AttrsText(b)
    decreases |a|
  {
    if |a| == 0 {
      assert a + b == b;
    } else {
      assert (a + b)[1..] == a[1..] + b;
      AttrsTextAppend(a[1..], b);
    }
  }

  // ---------------------------------------------------------------------
  // Reading an assignment back
  // ---------------------------------------------------------------------

  predicate HasPrefix(p: string, q: string) {
    |q| <= |p| && p[..|q|] == q
  }

  /** Recognises one attribute by its name. */
  function ParseAttr(p: string): Option<Attr> {
    if p == " Secure" then Some(Secure)
    else if HasPrefix(p, " expires=") then Some(Expires(p[9..]))
    else if HasPrefix(p, " path=") then Some(Path(p[6..]))
    else if HasPrefix(p, " SameSite=") then Some(SameSite(p[10..]))
    else if HasPrefix(p, " Domain=") then Some(Domain(p[8..]))
    else None
  }

  function ParseAttrs(ps: seq<string>): Option<seq<Attr>> {
    if |ps| == 0 then Some([])
    else
      match (ParseAttr(ps[0]), ParseAttrs(ps[1..]))
      case (Some(a), Some(rest)) => Some([a] + rest)
      case _ => None
  }

  /** Splits an assignment on `;` and reads the name, the value and the
      attributes back. */
  function Parse(s: string): Option<CookieLine> {
    var parts := SplitOn(s, ';');
    var first := parts[0];
    if '=' !in first then None
    else
      var k := IndexOfChar(first, '=');
      match ParseAttrs(parts[1..])
      case None => None
      case Some(attrs) => Some(CookieLine(first[..k], first[k + 1..], attrs))
  }

  /** The payload of an attribute. */
  function Payload(a: Attr): string {
    match a
    case Expires(x) => x
    case Path(p) => p
    case Secure => ""
    case SameSite(s) => s
    case Domain(x) => x
  }

  /** No field can be mistaken for a separator. */
  predicate WellFormed(c: CookieLine) {
    && ';' !in c.name && '=' !in c.name && ';' !in c.value
    && forall i :: 0 <= i < |c.attrs| ==> ';' !in Payload(c.attrs[i])
  }

  lemma ParseAttrText(a: Attr)
    ensures ParseAttr(AttrText(a)) == Some(a)
  {
    var p := AttrText(a);
    match a
    case Expires(x) =>
      assert p[1] == 'e' && p[..9] == " expires=" && p[9..] == x;
    case Path(x) =>
      assert p[1] == 'p' && p[..6] == " path=" && p[6..] == x;
      assert !HasPrefix(p, " expires=") by { if |p| >= 9 { assert p[..9][1] == 'p'; } }
    case Secure =>
    case SameSite(x) =>
      assert p[1] == 'S' && p[2] == 'a' && p[..10] == " SameSite=" && p[10..] == x;
      assert p != " Secure" by { assert " Secure"[2] == 'e'; }
      assert !HasPrefix(p, " expires=") by { assert p[..9][1] == 'S'; }
      assert !HasPrefix(p, " path=") by { assert p[..6][1] == 'S'; }
    case Domain(x) =>
      assert p[1] == 'D' && p[..8] == " Domain=" && p[8..] == x;
      assert p != " Secure" by { assert " Secure"[1] == 'S'; }
      assert !HasPrefix(p, " expires=") by { if |p| >= 9 { assert p[..9][1] == 'D'; } }
      assert !HasPrefix(p, " path=") by { assert p[..6][1] == 'D'; }
      assert !HasPrefix(p, " SameSite=") by { if |p| >= 10 { assert p[..10][1] == 'D'; } }
  }

  function Texts(attrs: seq<Attr>): (ts: seq<string>)
    ensures |ts| == |attrs| && forall i :: 0 <= i < |attrs| ==> ts[i] == AttrText(attrs[i])
  {
    if |attrs| == 0 then [] else [AttrText(attrs[0])] + Texts(attrs[1..])
  }

  lemma ParseAttrsCons(ps: seq<string>, a: Attr, rest: seq<Attr>)
    requires |ps| > 0 && ParseAttr(ps[0]) == Some(a) && ParseAttrs(ps[1..]) == Some(rest)
    ensures ParseAttrs(ps) == Some([a] + rest)
  {
  }

  lemma {:induction false} ParseTexts(attrs: seq<Attr>)
    ensures ParseAttrs(Texts(attrs)) == Some(attrs)
    decreases |attrs|
  {
    if |attrs| > 0 {
      var ts := Texts(attrs);
      assert ts[0] == AttrText(attrs[0]) && ts[1..] == Texts(attrs[1..]);
      ParseAttrText(attrs[0]);
      ParseTexts(attrs[1..]);
      ParseAttrsCons(ts, attrs[0], attrs[1..]);
      assert attrs == [attrs[0]] + attrs[1..];
    }
  }

  /** The attribute text is the `;`-join of the pieces. */
  lemma {:induction false} AttrsTextIsJoin(first: string, attrs: seq<Attr>)
    ensures first + AttrsText(attrs) == JoinWith([first] + Texts(attrs), ';')
    decreases |attrs|
  {
    if |attrs| > 0 {
      var t := Texts(attrs);
      AttrsTextIsJoin(AttrText(attrs[0]), attrs[1..]);
      assert ([first] + t)[1..] == t;
    }
  }

  lemma NoSemicolonInText(a: Attr)
    requires ';' !in Payload(a)
    ensures ';' !in AttrText(a)
  {
  }

  /** A well-formed assignment splits on `;` into `name=value` and the
      attribute texts. */
  lemma SerializePieces(c: CookieLine)
    requires WellFormed(c)
    ensures SplitOn(Serialize(c), ';') == [c.name + "=" + c.value] + Texts(c.attrs)
  {
    var first := c.name + "=" + c.value;
    var pieces := [first] + Texts(c.attrs);
    AttrsTextIsJoin(first, c.attrs);
    forall i | 0 <= i < |pieces| ensures ';' !in pieces[i] {
      if i > 0 {
        NoSemicolonInText(c.attrs[i - 1]);
      }
    }
    SplitJoin(pieces, ';');
  }

  /** The first `=` of `name=value` ends the name. */
  lemma FirstField(name: string, value: string)
    requires '=' !in name
    ensures var first := name + "=" + value;
            '=' in first && IndexOfChar(first, '=') == |name|
            && first[..|name|] == name && first[|name| + 1..] == value
  {
    var first := name + "=" + value;
    assert first[|name|] == '=' && first[..|name|] == name;
    IndexOfCharIs(first, '=', |name|);
  }

  /** Reading a well-formed assignment back gives the same name, value and
      attributes. */
  lemma ParseSerialize(c: CookieLine)
    requires WellFormed(c)
    ensures Parse(Serialize(c)) == Some(c)
  {
    SerializePieces(c);
    FirstField(c.name, c.value);
    ParseTexts(c.attrs);
    var parts := SplitOn(Serialize(c), ';');
    assert parts[1..] == Texts(c.attrs);
  }

  // ---------------------------------------------------------------------
  // set and remove
  // ---------------------------------------------------------------------

  /** `value || ''`, converted by the string concatenation. */
  function ValueText(v: Value): string {
    if Truthy(v) then ToStr(v) else ""
  }

  /** `opts || {}`. */
  function Options(opts: Value): Value {
    if Truthy(opts) then opts else Object(map[])
  }

  /** An attribute that is written only when its condition holds. */
  function Opt(present: bool, a: Attr): seq<Attr> {
    if present then [a] else []
  }

  /** `present ? '; attr' : ''`. */
  function Clause(present: bool, a: Attr): string {
    if present then ";" + AttrText(a) else ""
  }

  lemma ClauseText(present: bool, a: Attr)
    ensures AttrsText(Opt(present, a)) == Clause(present, a)
  {
    if present {
      assert [a][1..] == [];
    }
  }

  /** `opts.path || '/'`. */
  function PathOf(o: Value): string {
    var p := PropOf(o, "path");
    if Truthy(p) then ToStr(p) else "/"
  }

  /** `typeof opts.sameSite === 'string' && opts.sameSite.length`. */
  predicate HasSameSite(o: Value) {
    PropOf(o, "sameSite").Str? && |PropOf(o, "sameSite").s| > 0
  }

  function SameSiteOf(o: Value): string {
    if PropOf(o, "sameSite").Str? then PropOf(o, "sameSite").s else ""
  }

  /** 3.0.3 emits an expiry only for a number that is not negative. */
  predicate Expiring303(days: Value) {
    days.Num? && days.n >= 0
  }

  /** The attributes 3.0.3's `set` writes, in order, given whether an
      expiry is written; `date` is the expiry date text computed from `days`. */
  function AttrsWith(expiring: bool, o: Value, date: string): seq<Attr> {
    Opt(expiring, Expires(date))
    + [Path(PathOf(o))]
    + Opt(Truthy(PropOf(o, "secure")), Secure)
    + Opt(HasSameSite(o), SameSite(SameSiteOf(o)))
    + Opt(Truthy(PropOf(o, "domain")), Domain(ToStr(PropOf(o, "domain"))))
  }

  function Attrs303(days: Value, opts: Value, date: string): seq<Attr> {
    AttrsWith(Expiring303(days), Options(opts), date)
  }

  /** The assignment string built clause by clause, as `set` concatenates it. */
  function Assignment(name: Value, value: Value, expiring: bool, o: Value, date: string): string {
    ToStr(name) + "=" + ValueText(value)
    + Clause(expiring, Expires(date))
    + Clause(true, Path(PathOf(o)))
    + Clause(Truthy(PropOf(o, "secure")), Secure)
    + Clause(HasSameSite(o), SameSite(SameSiteOf(o)))
    + Clause(Truthy(PropOf(o, "domain")), Domain(ToStr(PropOf(o, "domain"))))
  }

  lemma FiveClauses(e: seq<Attr>, pa: seq<Attr>, se: seq<Attr>, sa: seq<Attr>, d: seq<Attr>)
    ensures AttrsText(e + pa + se + sa + d)
      == AttrsText(e) + AttrsText(pa) + AttrsText(se) + AttrsText(sa) + AttrsText(d)
  {
    AttrsTextAppend(e + pa + se + sa, d);
    AttrsTextAppend(e + pa + se, sa);
    AttrsTextAppend(e + pa, se);
    AttrsTextAppend(e, pa);
  }

  lemma Glue(head: string, x: string, a: string, b: string, c: string, d: string, e: string)
    requires x == a + b + c + d + e
    ensures head + x == head + a + b + c + d + e
  {
  }

  /** The clauses are the attribute list written out. */
  lemma AssignmentIsSerialize(name: Value, value: Value, expiring: bool, o: Value, date: string)
    ensures Assignment(name, value, expiring, o, date)
      == Serialize(CookieLine(ToStr(name), ValueText(value), AttrsWith(expiring, o, date)))
  {
    var sec := Truthy(PropOf(o, "secure"));
    var hs := HasSameSite(o);
    var hd := Truthy(PropOf(o, "domain"));
    var pa := Path(PathOf(o));
    var ss := SameSite(SameSiteOf(o));
    var dm := Domain(ToStr(PropOf(o, "domain")));
    var head := ToStr(name) + "=" + ValueText(value);
    var e, p, s1, s2, s3 := Opt(expiring, Expires(date)), [pa], Opt(sec, Secure), Opt(hs, ss), Opt(hd, dm);
    assert AttrsWith(expiring, o, date) == e + p + s1 + s2 + s3;
    FiveClauses(e, p, s1, s2, s3);
    Glue(head, AttrsText(e + p + s1 + s2 + s3),
      AttrsText(e), AttrsText(p), AttrsText(s1), AttrsText(s2), AttrsText(s3));
    ClauseText(expiring, Expires(date));
    ClauseText(true, pa);
    assert Opt(true, pa) == p;
    ClauseText(sec, Secure);
    ClauseText(hs, ss);
    ClauseText(hd, dm);
  }

  /** 3.0.3 `cookie.set(name, value, days, opts)`: the string assigned to
      `document.cookie`. */
  function Set303(name: Value, value: Value, days: Value, opts: Value, date: string): (r: string)
    ensures r == Serialize(CookieLine(ToStr(name), ValueText(value), Attrs303(days, opts, date)))
  {
    AssignmentIsSerialize(name, value, Expiring303(days), Options(opts), date);
    Assignment(name, value, Expiring303(days), Options(opts), date)
  }

  /** 3.0.3 `cookie.remove(name, opts)`: `set(name, '', -1, opts || {})`. */
  function Remove303(name: Value, opts: Value, date: string): string {
    Set303(name, Str(""), Num(-1), Options(opts), date)
  }

  /** The attributes 3.0.1 and 3.0.2 write. */
  function LegacyAttrs(days: Value, date: string): seq<Attr> {
    Opt(Truthy(days), Expires(date)) + [Path("/")]
  }

  /** 3.0.1 and 3.0.2 `cookie.set(name, value, days)`: an expiry for any
      truthy `days`, and always `path=/`. */
  function SetLegacy(name: Value, value: Value, days: Value, date: string): (r: string)
    ensures r == Serialize(CookieLine(ToStr(name), ValueText(value), LegacyAttrs(days, date)))
  {
    AttrsTextAppend(Opt(Truthy(days), Expires(date)), [Path("/")]);
    ClauseText(Truthy(days), Expires(date));
    ClauseText(true, Path("/"));
    ToStr(name) + "=" + ValueText(value) + Clause(Truthy(days), Expires(date)) + Clause(true, Path("/"))
  }

  /** 3.0.2 `cookie.remove(name)`; 3.0.1 has no `remove`. */
  function Remove302(name: Value, date: string): string {
    SetLegacy(name, Str(""), Num(-1), date)
  }

  /** The name and value fields of an assignment that read back unchanged. */
  predicate Plain(name: Value, value: Value, date: string) {
    ';' !in ToStr(name) && '=' !in ToStr(name) && ';' !in ValueText(value) && ';' !in date
  }

  /** 3.0.1 and 3.0.2 read back as the value, the expiry when `days` is
      truthy, and `path=/`. */
  lemma ParseLegacy(name: Value, value: Value, days: Value, date: string)
    requires Plain(name, value, date)
    ensures Parse(SetLegacy(name, value, days, date))
      == Some(CookieLine(ToStr(name), ValueText(value), LegacyAttrs(days, date)))
  {
    var attrs := LegacyAttrs(days, date);
    assert forall i :: 0 <= i < |attrs| ==> ';' !in Payload(attrs[i]);
    ParseSerialize(CookieLine(ToStr(name), ValueText(value), attrs));
  }

  /** With no options, 3.0.3 writes the expiry it decided on and `path=/`. */
  lemma NoOptions(expiring: bool, date: string)
    ensures AttrsWith(expiring, Object(map[]), date) == Opt(expiring, Expires(date)) + [Path("/")]
  {
    var o := Object(map[]);
    assert PropOf(o, "path") == Undefined && PathOf(o) == "/";
    assert !Truthy(PropOf(o, "secure")) && !HasSameSite(o) && !Truthy(PropOf(o, "domain"));
  }

  /** The versions disagree on 0 days (an expiry only in 3.0.3) and on
      negative days (an expiry only in 3.0.1 and 3.0.2); NaN expires in
      neither. */
  lemma ExpiryRules(date: string)
    ensures LegacyAttrs(Num(0), date) == [Path("/")]
    ensures Attrs303(Num(0), Undefined, date) == [Expires(date), Path("/")]
    ensures LegacyAttrs(Num(-1), date) == [Expires(date), Path("/")]
    ensures Attrs303(Num(-1), Undefined, date) == [Path("/")]
    ensures LegacyAttrs(NaN, date) == Attrs303(NaN, Undefined, date) == [Path("/")]
  {
    NoOptions(true, date);
    NoOptions(false, date);
    assert Opt(false, Expires(date)) + [Path("/")] == [Path("/")];
    assert Opt(true, Expires(date)) + [Path("/")] == [Expires(date), Path("/")];
  }

  /** 3.0.2's `remove` writes an empty value that expires. */
  lemma Remove302Expires(name: Value, date: string)
    ensures Remove302(name, date) == Serialize(CookieLine(ToStr(name), "", LegacyAttrs(Num(-1), date)))
    ensures LegacyAttrs(Num(-1), date) == [Expires(date), Path("/")]
  {
    assert ValueText(Str("")) == "";
    ExpiryRules(date);
  }

  /** 3.0.3's `remove` writes an empty value and no expiry at all, whatever
      the options. */
  lemma Remove303NeverExpires(name: Value, opts: Value, date: string)
    ensures var attrs := Attrs303(Num(-1), Options(opts), date);
            Remove303(name, opts, date) == Serialize(CookieLine(ToStr(name), "", attrs))
            && forall i :: 0 <= i < |attrs| ==> !attrs[i].Expires?
  {
    var o := Options(opts);
    assert Options(o) == o;
    assert !Expiring303(Num(-1));
    assert ValueText(Str("")) == "";
    WithoutExpiry(o, date);
  }

  /** Without the expiry clause no attribute is an expiry. */
  lemma WithoutExpiry(o: Value, date: string)
    ensures var attrs := AttrsWith(false, o, date);
            forall i :: 0 <= i < |attrs| ==> !attrs[i].Expires?
  {
    var se := Truthy(PropOf(o, "secure"));
    var sa := HasSameSite(o);
    var dm := Truthy(PropOf(o, "domain"));
    NoExpiryInFour(Opt(false, Expires(date)), [Path(PathOf(o))], Opt(se, Secure),
      Opt(sa, SameSite(SameSiteOf(o))), Opt(dm, Domain(ToStr(PropOf(o, "domain")))));
  }

  lemma NoExpiryInFour(e: seq<Attr>, a: seq<Attr>, b: seq<Attr>, c: seq<Attr>, d: seq<Attr>)
    requires e == [] && |a| == 1 && !a[0].Expires?
    requires |b| <= 1 && |c| <= 1 && |d| <= 1
    requires forall i :: 0 <= i < |b| ==> !b[i].Expires?
    requires forall i :: 0 <= i < |c| ==> !c[i].Expires?
    requires forall i :: 0 <= i < |d| ==> !d[i].Expires?
    ensures forall i :: 0 <= i < |e + a + b + c + d| ==> !(e + a + b + c + d)[i].Expires?
  {
  }

  // ---------------------------------------------------------------------
  // The intended removal
  // ---------------------------------------------------------------------

  /** `set` as its `remove` needs it: an expiry for every number of days,
      negative ones giving a date in the past. */
  function SetFixed(name: Value, value: Value, days: Value, opts: Value, date: string): (r: string)
    ensures r == Serialize(CookieLine(ToStr(name), ValueText(value), AttrsWith(days.Num?, Options(opts), date)))
  {
    AssignmentIsSerialize(name, value, days.Num?, Options(opts), date);
    Assignment(name, value, days.Num?, Options(opts), date)
  }

  function RemoveFixed(name: Value, opts: Value, date: string): string {
    SetFixed(name, Str(""), Num(-1), Options(opts), date)
  }

  /** The corrected `set` agrees with 3.0.3 for every days value except a
      negative number. */
  lemma SetFixedAgrees(name: Value, value: Value, days: Value, opts: Value, date: string)
    requires !(days.Num? && days.n < 0)
    ensures SetFixed(name, value, days, opts, date) == Set303(name, value, days, opts, date)
  {
  }

  /** The option fields of an assignment that read back unchanged. */
  predicate PlainOptions(o: Value) {
    && ';' !in PathOf(o) && ';' !in SameSiteOf(o)
    && (Truthy(PropOf(o, "domain")) ==> ';' !in ToStr(PropOf(o, "domain")))
  }

  /** Deciding to expire puts the expiry in front and changes nothing else. */
  lemma ExpiryInFront(o: Value, date: string)
    ensures AttrsWith(true, o, date) == [Expires(date)] + AttrsWith(false, o, date)
  {
  }

  lemma PlainPayloads(expiring: bool, o: Value, date: string)
    requires PlainOptions(o) && ';' !in date
    ensures var attrs := AttrsWith(expiring, o, date);
            forall i :: 0 <= i < |attrs| ==> ';' !in Payload(attrs[i])
  {
  }

  /** The corrected `remove` writes an empty value with an expiry (the past
      date computed from -1 days), followed by the same path, flags and
      domain that 3.0.3's `remove` writes. */
  lemma RemoveFixedExpires(name: Value, opts: Value, date: string)
    requires Plain(name, Str(""), date) && PlainOptions(Options(opts))
    ensures Parse(RemoveFixed(name, opts, date))
      == Some(CookieLine(ToStr(name), "", [Expires(date)] + Attrs303(Num(-1), Options(opts), date)))
  {
    var o := Options(opts);
    assert Options(o) == o;
    ExpiryInFront(o, date);
    PlainPayloads(true, o, date);
    assert ValueText(Str("")) == "";
    ParseSerialize(CookieLine(ToStr(name), "", AttrsWith(true, o, date)));
  }

  // ---------------------------------------------------------------------
  // get
  // ---------------------------------------------------------------------

  /** `cookie.get(name)` over the document's cookies as name/value pairs:
      the first non-empty value stored under the name, or "". */
  function CookieGet(jar: seq<(string, string)>, name: string): (r: string)
    ensures (forall i :: 0 <= i < |jar| ==> jar[i].0 != name) ==> r == ""
    ensures r == "" || exists i :: 0 <= i < |jar| && jar[i].0 == name && jar[i].1 == r
    ensures (exists i :: 0 <= i < |jar| && jar[i].0 == name && jar[i].1 != "") <==> r != ""
    ensures r != "" ==>
      exists i :: 0 <= i < |jar| && jar[i] == (name, r)
        && forall j :: 0 <= j < i ==> jar[j].0 != name || jar[j].1 == ""
  {
    if |jar| == 0 then ""
    else if jar[0].0 == name && jar[0].1 != "" then jar[0].1
    else
      var r := CookieGet(jar[1..], name);
      assert forall i :: 1 <= i < |jar| ==> jar[i] == jar[1..][i - 1];
      assert forall i :: 0 <= i < |jar| - 1 ==> jar[1..][i] == jar[i + 1];
      if r != "" then
        var k :| 0 <= k < |jar[1..]| && jar[1..][k] == (name, r)
          && forall j :: 0 <= j < k ==> jar[1..][j].0 != name || jar[1..][j].1 == "";
        assert jar[k + 1] == (name, r);
        assert forall j :: 0 <= j < k + 1 ==> jar[j].0 != name || jar[j].1 == "";
        r
      else r
  }

  /** The value `get` returns is the one stored in the first matching
      cookie with a non-empty value. */
  lemma CookieGetFirst(jar: seq<(string, string)>, name: string, i: nat)
    requires i < |jar| && jar[i].0 == name && jar[i].1 != ""
    requires forall j :: 0 <= j < i ==> jar[j].0 != name || jar[j].1 == ""
    ensures CookieGet(jar, name) == jar[i].1
  {
    var r := CookieGet(jar, name);
    assert r != "";
    var k :| 0 <= k < |jar| && jar[k] == (name, r)
      && forall j :: 0 <= j < k ==> jar[j].0 != name || jar[j].1 == "";
    assert !(k < i) && !(i < k);
  }
}
