/** 3.0.3's global configuration and the two values read from it: the AJAX
    timeout with its abort timer, and the animation duration. */
module Config {
  import opened Js

  /** The defaults `nj.config` starts from. */
  function Defaults(): map<string, Value> {
    map[
      "debug" := Bool(false),
      "warn" := Bool(true),
      "ajaxTimeout" := Num(8000),
      "exposeDollar" := Bool(false),
      "animation" := Object(map["duration" := Num(300)])
    ]
  }

  /** `Object.assign(defaults, nj.config || {})`: a plain-object config
      overrides the defaults key by key; anything else leaves the defaults. */
  function Merge(existing: Value): (r: Value)
    ensures r.Object?
    ensures forall k :: k in r.props <==> k in Defaults() || (existing.Object? && k in existing.props)
    ensures forall k :: existing.Object? && k in existing.props ==> r.props[k] == existing.props[k]
    ensures forall k :: k in Defaults() && !(existing.Object? && k in existing.props) ==> r.props[k] == Defaults()[k]
  {
    if Truthy(existing) && existing.Object? then Object(Defaults() + existing.props) else Object(Defaults())
  }

  /** `typeof opts.timeout === 'number' ? opts.timeout
      : (config && typeof config.ajaxTimeout === 'number' ? config.ajaxTimeout : 0)`,
      after `opts = {}` for a missing argument; reading a property of a
      null `opts` throws. */
  function AjaxTimeout(opts: Value, config: Value): (r: Result<Value>)
    ensures r.Err? <==> opts.Null?
    ensures r.Ok? ==> IsNumber(r.value)
    ensures IsNumber(PropOf(opts, "timeout")) ==> r == Ok(PropOf(opts, "timeout"))
    ensures r.Ok? && !IsNumber(PropOf(opts, "timeout")) ==>
              r.value == (if Truthy(config) && IsNumber(PropOf(config, "ajaxTimeout"))
                          then PropOf(config, "ajaxTimeout") else Num(0))
  {
    var o := if opts.Undefined? then Object(map[]) else opts;
    match Get(o, "timeout")
    case Err(e) => Err(e)
    case Ok(t) =>
      if IsNumber(t) then Ok(t)
      else if Truthy(config) && IsNumber(PropOf(config, "ajaxTimeout")) then Ok(PropOf(config, "ajaxTimeout"))
      else Ok(Num(0))
  }

  /** `controller && timeout > 0`: the abort timer is set only where an
      `AbortController` exists and the timeout is a positive number. */
  predicate ArmsTimer(controller: bool, timeout: Value) {
    controller && timeout.Num? && timeout.n > 0
  }

  /** `typeof duration === 'number' ? duration
      : (config && config.animation && config.animation.duration) || 300`. */
  function AnimationDuration(duration: Value, config: Value): (r: Value)
    ensures IsNumber(duration) ==> r == duration
    ensures !IsNumber(duration) ==> Truthy(r)
    ensures !IsNumber(duration) ==>
              r == (if ConfiguredDurationOf(config).Some? then ConfiguredDurationOf(config).value else Num(300))
  {
    if IsNumber(duration) then duration
    else
      var a := if Truthy(config) then PropOf(config, "animation") else config;
      var d := if Truthy(a) then PropOf(a, "duration") else a;
      if Truthy(d) then d else Num(300)
  }

  /** The duration the configuration supplies: `config.animation.duration`
      when the configuration, its animation entry and that duration are all
      truthy. */
  function ConfiguredDurationOf(config: Value): (r: Option<Value>)
    ensures r.Some? ==> Truthy(r.value)
  {
    if Truthy(config) && Truthy(PropOf(config, "animation"))
       && Truthy(PropOf(PropOf(config, "animation"), "duration"))
    then Some(PropOf(PropOf(config, "animation"), "duration"))
    else None
  }

  /** With no user configuration and no options, requests time out after
      8000 ms and animations last 300 ms. */
  lemma DefaultsApply(controller: bool)
    ensures AjaxTimeout(Undefined, Merge(Undefined)) == Ok(Num(8000))
    ensures ArmsTimer(controller, AjaxTimeout(Undefined, Merge(Undefined)).value) <==> controller
    ensures AnimationDuration(Undefined, Merge(Undefined)) == Num(300)
  {
    var c := Merge(Undefined);
    assert c.props["ajaxTimeout"] == Num(8000);
    assert c.props["animation"] == Object(map["duration" := Num(300)]);
  }

  /** Any timeout that is not a positive number (0, a negative number, NaN)
      disables the timer; a configured `ajaxTimeout` of 0 does so for every
      request that gives no timeout of its own. */
  lemma ZeroDisablesTimer(controller: bool, opts: Value, m: map<string, Value>)
    requires "ajaxTimeout" in m && m["ajaxTimeout"] == Num(0)
    requires opts.Undefined? || (opts.Object? && "timeout" !in opts.props)
    ensures AjaxTimeout(opts, Merge(Object(m))) == Ok(Num(0))
    ensures !ArmsTimer(controller, Num(0)) && !ArmsTimer(controller, NaN)
    ensures forall n: int :: n < 0 ==> !ArmsTimer(controller, Num(n))
  {
    var c := Merge(Object(m));
    assert PropOf(c, "ajaxTimeout") == Num(0);
  }

  /** An explicit duration of 0 is kept, but a configured duration of 0 is
      falsy and falls back to 300. */
  lemma ZeroDuration(m: map<string, Value>)
    requires "animation" in m && m["animation"] == Object(map["duration" := Num(0)])
    ensures AnimationDuration(Num(0), Merge(Object(m))) == Num(0)
    ensures AnimationDuration(Undefined, Merge(Object(m))) == Num(300)
  {
    var c := Merge(Object(m));
    assert PropOf(c, "animation") == Object(map["duration" := Num(0)]);
  }

  /** A request without options waits for the user's `ajaxTimeout` when it is
      a number, for no timer at all when it is set to anything else, and for
      the default 8000 ms when the user configuration leaves it out. */
  lemma MergedTimeout(m: map<string, Value>)
    ensures AjaxTimeout(Undefined, Merge(Object(m))) ==
      Ok(if "ajaxTimeout" !in m then Num(8000)
         else if IsNumber(m["ajaxTimeout"]) then m["ajaxTimeout"] else Num(0))
  {
    var c := Merge(Object(m));
    assert PropOf(c, "ajaxTimeout") == if "ajaxTimeout" in m then m["ajaxTimeout"] else Num(8000);
  }

  /** Without a number argument, the duration is the user's truthy
      `animation.duration`, and 300 ms otherwise (the default animation entry
      also says 300). */
  lemma MergedDuration(m: map<string, Value>, v: Value)
    requires !IsNumber(v)
    ensures AnimationDuration(v, Merge(Object(m))) ==
      if "animation" in m && Truthy(m["animation"]) && Truthy(PropOf(m["animation"], "duration"))
      then PropOf(m["animation"], "duration") else Num(300)
  {
    var c := Merge(Object(m));
    assert PropOf(c, "animation") == if "animation" in m then m["animation"] else Object(map["duration" := Num(300)]);
  }

  /** A configured positive duration is used when no number is passed. */
  lemma ConfiguredDuration(m: map<string, Value>, n: int)
    requires n > 0 && "animation" in m && m["animation"] == Object(map["duration" := Num(n)])
    ensures forall v :: !IsNumber(v) ==> AnimationDuration(v, Merge(Object(m))) == Num(n)
  {
    var c := Merge(Object(m));
    assert PropOf(c, "animation") == Object(map["duration" := Num(n)]);
  }
}
