/** set_attributes and process_json_configuration of
    lib/configuration.js: every setting is the configured value when that
    is truthy and a fixed default otherwise, with JS `||` semantics. */
module Configuration {
  import opened Wrappers

  /** A parsed JSON value. A number is its exact decimal value, fractions
      included; an array is truthy whatever it holds. */
  datatype JsValue =
    | Undefined | Null | Bool(b: bool) | Num(n: real) | Str(s: string)
    | Arr(items: seq<JsValue>) | Obj(fields: map<string, JsValue>)

  predicate Truthy(v: JsValue)
  {
    match v
    case Undefined => false
    case Null => false
    case Bool(b) => b
    case Num(n) => n != 0.0
    case Str(s) => s != ""
    case Arr(_) => true
    case Obj(_) => true
  }

  /** `a || b`: a when it is truthy, else b. */
  function Or(a: JsValue, b: JsValue): (r: JsValue)
    ensures Truthy(a) ==> r == a
    ensures !Truthy(a) ==> r == b
    ensures Truthy(r) <==> Truthy(a) || Truthy(b)
  {
    if Truthy(a) then a else b
  }

  /** Property access is a TypeError exactly on these two. */
  predicate Nullish(v: JsValue)
  {
    v.Undefined? || v.Null?
  }

  /** `v.name` on a value that is not null or undefined: the property of
      an object, undefined when absent or when v is a primitive. */
  function Field(v: JsValue, name: string): (r: JsValue)
    requires !Nullish(v)
  {
    match v
    case Obj(m) => if name in m then m[name] else Undefined
    case _ => Undefined
  }

  const DefaultWakeInterval: int := 1
  const DefaultMinimumCount: int := 5
  const DefaultFlushInterval: int := 10
  const DefaultLockSleepBeforeRetry: int := 250
  const DefaultLockMaxRetryCount: int := 15

  datatype Config = Config(
    eventReportingWakeInterval: JsValue,
    eventReportingMinimumCount: JsValue,
    eventReportingFlushInterval: JsValue,
    nodejsLockSleepBeforeRetry: JsValue,
    nodejsLockMaxRetryCount: JsValue)

  /** The configuration with every setting at its default. */
  function Defaults(): (c: Config)
  {
    Config(Num(DefaultWakeInterval as real), Num(DefaultMinimumCount as real),
           Num(DefaultFlushInterval as real), Num(DefaultLockSleepBeforeRetry as real),
           Num(DefaultLockMaxRetryCount as real))
  }

  /** Every setting is truthy. */
  predicate AllTruthy(c: Config)
  {
    && Truthy(c.eventReportingWakeInterval) && Truthy(c.eventReportingMinimumCount)
    && Truthy(c.eventReportingFlushInterval) && Truthy(c.nodejsLockSleepBeforeRetry)
    && Truthy(c.nodejsLockMaxRetryCount)
  }

  /** `(v.name) || default`. */
  function Setting(v: JsValue, name: string, default: int): (r: JsValue)
    requires !Nullish(v)
    ensures Truthy(Field(v, name)) ==> r == Field(v, name)
    ensures !Truthy(Field(v, name)) ==> r == Num(default as real)
    ensures default != 0 ==> Truthy(r)
  {
    Or(Field(v, name), Num(default as real))
  }

  /** set_attributes(er, njs): reading a setting of a null or undefined
      section is a TypeError. */
  function SetAttributes(er: JsValue, njs: JsValue): (r: Result<Config>)
    ensures r.Err? <==> Nullish(er) || Nullish(njs)
    ensures r.Err? ==> r.error == TypeError
    ensures r.Ok? ==> AllTruthy(r.value)
  {
    if Nullish(er) || Nullish(njs) then Err(TypeError)
    else
      Ok(Config(Setting(er, "wake_interval", DefaultWakeInterval),
                Setting(er, "minimum_count", DefaultMinimumCount),
                Setting(er, "flush_interval", DefaultFlushInterval),
                Setting(njs, "lock_sleep_before_retry", DefaultLockSleepBeforeRetry),
                Setting(njs, "lock_max_retry_count", DefaultLockMaxRetryCount)))
  }

  /** process_json_configuration(configuration_data): a missing or falsy
      section reads as {}; a null or undefined root is a TypeError. */
  function ProcessJsonConfiguration(data: JsValue): (r: Result<Config>)
    ensures r.Err? <==> Nullish(data)
    ensures r.Ok? ==> AllTruthy(r.value)
  {
    if Nullish(data) then Err(TypeError)
    else SetAttributes(Or(Field(data, "event_reporting"), Obj(map[])), Or(Field(data, "nodejs"), Obj(map[])))
  }

  /** An empty section gives every default. */
  lemma EmptySectionsDefault()
    ensures SetAttributes(Obj(map[]), Obj(map[])) == Ok(Defaults())
  {
  }

  /** A configuration without the two sections, or with falsy ones, gives
      every default. */
  lemma MissingSectionsDefault(data: map<string, JsValue>)
    requires "event_reporting" !in data || !Truthy(data["event_reporting"])
    requires "nodejs" !in data || !Truthy(data["nodejs"])
    ensures ProcessJsonConfiguration(Obj(data)) == Ok(Defaults())
  {
  }

  /** A configured value is kept exactly when it is truthy: 0, "" and
      false fall back to the default like a missing one. */
  lemma SettingKeptIff(m: map<string, JsValue>, name: string, default: int, v: JsValue)
    ensures Setting(Obj(m[name := v]), name, default) == if Truthy(v) then v else Num(default as real)
  {
  }

  /** A configured wake interval of 0 is replaced by the default 1. */
  lemma ZeroWakeReplaced(data: map<string, JsValue>)
    requires "nodejs" !in data
    ensures ProcessJsonConfiguration(Obj(data["event_reporting" := Obj(map["wake_interval" := Num(0.0)])]))
            == Ok(Defaults())
  {
  }

  /** A fractional wake interval and an array setting, even an empty one,
      are truthy and kept as configured. */
  lemma FractionAndArrayKept(data: map<string, JsValue>)
    requires "nodejs" !in data
    ensures var er := Obj(map["wake_interval" := Num(0.5), "minimum_count" := Arr([])]);
            var r := ProcessJsonConfiguration(Obj(data["event_reporting" := er]));
            && r.Ok?
            && r.value.eventReportingWakeInterval == Num(0.5)
            && r.value.eventReportingMinimumCount == Arr([])
            && r.value.eventReportingFlushInterval == Num(DefaultFlushInterval as real)
  {
  }
}
