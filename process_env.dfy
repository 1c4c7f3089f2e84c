/**
 * index.js: `filterEnv(validate, options)`, a standalone copy of the filter
 * that reads the process environment. It has no environment check, and its
 * `parse` keeps only non-empty strings.
 */
module ProcessEnv {
  import opened JsValues
  import opened Filtering
  import LibFilter

  /** A snapshot of the process environment: names and their string values,
      in Object.keys order. */
  type Snapshot = seq<(string, string)>

  /** The snapshot as the loop reads it: every value is a string. */
  function Source(env: Snapshot): Entries
  {
    seq(|env|, j requires 0 <= j < |env| => (env[j].0, Str(env[j].1)))
  }

  /** index.js `parse`: only a non-empty string gives a value; the JSON
      fallback is that of lib/filter.js. Every other value gives undefined. */
  function Parse(jsonParse: JsonParse, value: Val): (r: Result<Val>)
    ensures value.Str? && value.s != "" && jsonParse(value.s).Ok? ==> r == jsonParse(value.s)
    ensures value.Str? && value.s != "" && jsonParse(value.s).Err? ==>
              if OpensStructure(value.s) then r == jsonParse(value.s) else r == Ok(value)
    ensures !(value.Str? && value.s != "") ==> r == Ok(Undef)
  {
    if value.Str? && value.s != "" then
      LooksStructuredOpensStructure(value.s);
      match jsonParse(value.s)
      case Ok(parsed) => Ok(parsed)
      case Err(e) => if LooksStructured(value.s) then Err(e) else Ok(value)
    else
      Ok(Undef)
  }

  /** The two copies of `parse` agree except on numbers and dates, which
      lib/filter.js passes through and index.js turns into undefined. */
  lemma ParseAgainstLib(jsonParse: JsonParse, value: Val)
    ensures value.Num? || value.Date? ==>
              Parse(jsonParse, value) == Ok(Undef) && LibFilter.Parse(jsonParse, value) == Ok(value)
    ensures !value.Num? && !value.Date? ==> Parse(jsonParse, value) == LibFilter.Parse(jsonParse, value)
  {
    if value.Str? && value.s != "" {
      match jsonParse(value.s)
      case Ok(_) =>
      case Err(_) =>
        if OpensStructure(value.s) {
          assert Parse(jsonParse, value) == jsonParse(value.s) == LibFilter.Parse(jsonParse, value);
        }
    }
  }

  function Parser(jsonParse: JsonParse): Val -> Result<Val>
  {
    v => Parse(jsonParse, v)
  }

  /** The exported function over a snapshot of the environment: only the
      validator is checked, then every key is visited. */
  function FilterEnv(jsonParse: JsonParse, env: Snapshot, validate: Validator, options: Options): (r: Result<Table>)
    ensures validate.Unusable? ==> r == Err(TypeError(InvalidValidationFunction))
    ensures r.Ok? ==> r.value.frozen == (options.Given? && options.freeze == Bool(true))
    ensures r.Ok? ==> DistinctNames(r.value.entries)
  {
    match Predicate(validate)
    case None => Err(TypeError(InvalidValidationFunction))
    case Some(isValid) => Build(isValid, options, Parser(jsonParse), Source(env))
  }

  /** The exported function as the source runs it, step by step. */
  method RunFilterEnv(jsonParse: JsonParse, env: Snapshot, validate: Validator, options: Options)
    returns (r: Result<Table>)
    ensures r == FilterEnv(jsonParse, env, validate, options)
  {
    var isValid := Predicate(validate);
    if isValid.None? {
      return Err(TypeError(InvalidValidationFunction));
    }
    r := BuildTable(isValid.value, options, Parser(jsonParse), Source(env));
  }

  /** Names: each result entry is named `format(key)`, non-empty, for an
      environment key that passes; and the entry under that name is the one
      for the first such key whose value is kept, so later keys never
      overwrite it. */
  lemma FilterEnvNames(jsonParse: JsonParse, env: Snapshot, validate: Validator, options: Options, t: Table)
    requires FilterEnv(jsonParse, env, validate, options) == Ok(t)
    ensures !validate.Unusable?
    ensures forall i :: 0 <= i < |t.entries| ==>
              FirstWritten(Predicate(validate).value, Resolve(options), Parser(jsonParse), Source(env), t.entries[i])
  {
    assert |Source(env)| == |env|;
    assert Collect(Predicate(validate).value, Resolve(options), Parser(jsonParse), [], Source(env)) == Ok(t.entries);
    CollectFirstWrites(Predicate(validate).value, Resolve(options), Parser(jsonParse), Source(env), t.entries);
  }

  /** With `json` off, every value in the result is the environment's own
      string, unchanged. */
  lemma RawStringsWithoutJson(jsonParse: JsonParse, env: Snapshot, validate: Validator, options: Options, t: Table)
    requires FilterEnv(jsonParse, env, validate, options) == Ok(t)
    requires !(options.Given? && options.json == Bool(true))
    ensures forall i :: 0 <= i < |t.entries| ==>
              exists j :: 0 <= j < |env| && t.entries[i] == (Resolve(options).format(env[j].0), Str(env[j].1))
  {
    var isValid := Predicate(validate).value;
    var s := Resolve(options);
    assert |Source(env)| == |env| && forall j :: 0 <= j < |env| ==> Source(env)[j] == (env[j].0, Str(env[j].1));
    CollectSound(isValid, s, Parser(jsonParse), [], Source(env), t.entries);
    forall i | 0 <= i < |t.entries|
      ensures exists j :: 0 <= j < |env| && t.entries[i] == (s.format(env[j].0), Str(env[j].1))
    {
      var j :| 0 <= j < |Source(env)| && Produces(isValid, s, Parser(jsonParse), Source(env)[j], t.entries[i]);
      assert t.entries[i] == (s.format(env[j].0), Str(env[j].1));
    }
  }

  /** `stored` is what the filter writes, under `json`, for the environment
      variable `entry`: its value is non-empty, and the stored value is
      JSON.parse's value, or the string itself when JSON.parse fails and the
      text does not open with `{` or `[`; it is not undefined. */
  ghost predicate FromNonEmptyString(jsonParse: JsonParse, s: Settings, entry: (string, string), stored: (string, Val))
  {
    var (key, text) := entry;
    var v := if jsonParse(text).Ok? then jsonParse(text).value else Str(text);
    && text != ""
    && stored.0 == s.format(key)
    && !v.Undef?
    && (jsonParse(text).Err? ==> !OpensStructure(text))
    && stored.1 == Store(s.freeze, v)
  }

  /** One entry of the result under `json` comes from a non-empty string. */
  lemma ParsedEntry(jsonParse: JsonParse, isValid: string -> bool, s: Settings, entry: (string, string), stored: (string, Val))
    requires s.json
    requires Produces(isValid, s, Parser(jsonParse), (entry.0, Str(entry.1)), stored)
    ensures FromNonEmptyString(jsonParse, s, entry, stored)
  {
    var (key, text) := entry;
    assert Parser(jsonParse)(Str(text)) == Parse(jsonParse, Str(text));
    var v := if jsonParse(text).Ok? then jsonParse(text).value else Str(text);
    assert Parse(jsonParse, Str(text)) == Ok(v);
  }

  /** With `json` on, every value in the result comes from a non-empty
      environment string: JSON.parse's value, or the string itself when it
      does not open with `{` or `[`. Empty values are always left out. */
  lemma ParsedFromNonEmptyStrings(jsonParse: JsonParse, env: Snapshot, validate: Validator, options: Options, t: Table)
    requires FilterEnv(jsonParse, env, validate, options) == Ok(t)
    requires options.Given? && options.json == Bool(true)
    ensures forall i :: 0 <= i < |t.entries| ==>
              exists j :: 0 <= j < |env| && FromNonEmptyString(jsonParse, Resolve(options), env[j], t.entries[i])
  {
    var isValid := Predicate(validate).value;
    var s := Resolve(options);
    assert |Source(env)| == |env| && forall j :: 0 <= j < |env| ==> Source(env)[j] == (env[j].0, Str(env[j].1));
    CollectSound(isValid, s, Parser(jsonParse), [], Source(env), t.entries);
    forall i | 0 <= i < |t.entries|
      ensures exists j :: 0 <= j < |env| && FromNonEmptyString(jsonParse, s, env[j], t.entries[i])
    {
      var j :| 0 <= j < |Source(env)| && Produces(isValid, s, Parser(jsonParse), Source(env)[j], t.entries[i]);
      ParsedEntry(jsonParse, isValid, s, env[j], t.entries[i]);
    }
  }

  /** The JSON fallback: after the validator check, the call throws only
      under `json`, for a key that passes with a non-empty name and whose
      non-empty value JSON.parse rejects and opens with `{` or `[`. */
  lemma FilterEnvThrowsOnlyOnStructured(jsonParse: JsonParse, env: Snapshot, validate: Validator,
                                        options: Options, e: Error)
    requires !validate.Unusable?
    requires FilterEnv(jsonParse, env, validate, options) == Err(e)
    ensures options.Given? && options.json == Bool(true)
    ensures exists j :: 0 <= j < |env| &&
              Predicate(validate).value(env[j].0) && Resolve(options).format(env[j].0) != "" &&
              env[j].1 != "" && OpensStructure(env[j].1) && jsonParse(env[j].1) == Err(e)
  {
    var isValid := Predicate(validate).value;
    var s := Resolve(options);
    assert |Source(env)| == |env| && forall j :: 0 <= j < |env| ==> Source(env)[j] == (env[j].0, Str(env[j].1));
    CollectErrorFromParse(isValid, s, Parser(jsonParse), [], Source(env), e);
    var j :| 0 <= j < |Source(env)| && isValid(Source(env)[j].0) && s.format(Source(env)[j].0) != "" &&
             Parser(jsonParse)(Source(env)[j].1) == Err(e);
    assert Parse(jsonParse, Str(env[j].1)) == Err(e);
  }

  /** A RegExp validator acts exactly as the function `key => test(key)`. */
  lemma RegExpActsAsTest(jsonParse: JsonParse, env: Snapshot, test: string -> bool, options: Options)
    ensures FilterEnv(jsonParse, env, Pattern(test), options) == FilterEnv(jsonParse, env, Callable(test), options)
  {
  }

  /** Option defaulting: `json` and `freeze` count only when they are exactly
      `true`, no options act as `{}`, and a `format` that is not a function
      acts as the identity. */
  lemma OptionsOnlyForTrue(jsonParse: JsonParse, env: Snapshot, validate: Validator,
                           json: Val, freeze: Val, format: Option<string -> string>)
    ensures FilterEnv(jsonParse, env, validate, Given(json, freeze, format)) ==
            FilterEnv(jsonParse, env, validate, Given(Bool(json == Bool(true)), Bool(freeze == Bool(true)), format))
    ensures FilterEnv(jsonParse, env, validate, Absent) == FilterEnv(jsonParse, env, validate, Given(Undef, Undef, None))
    ensures FilterEnv(jsonParse, env, validate, Given(json, freeze, None)) ==
            FilterEnv(jsonParse, env, validate, Given(json, freeze, Some(Identity)))
  {
    assert Resolve(Given(json, freeze, format)) ==
           Resolve(Given(Bool(json == Bool(true)), Bool(freeze == Bool(true)), format));
    assert Resolve(Absent) == Resolve(Given(Undef, Undef, None));
    assert Resolve(Given(json, freeze, None)) == Resolve(Given(json, freeze, Some(Identity)));
  }

  /** The converse of FilterEnvThrowsOnlyOnStructured: under `json`, once the
      variables before it leave a name free, a passing variable with that
      name whose value opens with `{` or `[` and is rejected by JSON.parse
      makes the whole call throw JSON.parse's error, whatever follows. */
  lemma StructuredParseErrorThrows(jsonParse: JsonParse, before: Snapshot, key: string, text: string,
                                   after: Snapshot, validate: Validator, options: Options, t: Table, e: Error)
    requires FilterEnv(jsonParse, before, validate, options) == Ok(t)
    requires options.Given? && options.json == Bool(true)
    requires Predicate(validate).Some? && Predicate(validate).value(key)
    requires Resolve(options).format(key) != "" && Resolve(options).format(key) !in Names(t.entries)
    requires OpensStructure(text) && jsonParse(text) == Err(e)
    ensures FilterEnv(jsonParse, before + [(key, text)] + after, validate, options) == Err(e)
  {
    var isValid := Predicate(validate).value;
    var s := Resolve(options);
    var whole := before + [(key, text)] + after;
    var lifted := Source(before) + [(key, Str(text))] + Source(after);
    assert Source(whole) == lifted by {
      forall j | 0 <= j < |whole|
        ensures Source(whole)[j] == lifted[j]
      {
        if j > |before| {
          assert whole[j] == after[j - |before| - 1];
        }
      }
    }
    assert Collect(isValid, s, Parser(jsonParse), [], Source(before)) == Ok(t.entries);
    assert text != [];
    assert Parse(jsonParse, Str(text)) == Err(e);
    ParseErrorStops(isValid, s, Parser(jsonParse), Source(before), t.entries, key, Str(text), Source(after), e);
  }

  /** Under `freeze` the result and every plain-object value in it are
      frozen; without it the result is not, and every value is stored exactly
      as computed from an environment string. */
  lemma FreezeEnv(jsonParse: JsonParse, env: Snapshot, validate: Validator, options: Options, t: Table)
    requires FilterEnv(jsonParse, env, validate, options) == Ok(t)
    ensures t.frozen <==> options.Given? && options.freeze == Bool(true)
    ensures t.frozen ==> forall i :: 0 <= i < |t.entries| && t.entries[i].1.Obj? ==> t.entries[i].1.frozen
    ensures !t.frozen ==> forall i :: 0 <= i < |t.entries| ==>
              exists j :: 0 <= j < |env| && ValueOf(Resolve(options), Parser(jsonParse), Str(env[j].1)) == Ok(t.entries[i].1)
  {
    var isValid := Predicate(validate).value;
    var s := Resolve(options);
    assert |Source(env)| == |env| && forall j :: 0 <= j < |env| ==> Source(env)[j] == (env[j].0, Str(env[j].1));
    FreezeStored(isValid, s, Parser(jsonParse), Source(env), t.entries);
    forall i | 0 <= i < |t.entries| && !t.frozen
      ensures exists j :: 0 <= j < |env| && ValueOf(s, Parser(jsonParse), Str(env[j].1)) == Ok(t.entries[i].1)
    {
      var j :| 0 <= j < |Source(env)| && ValueOf(s, Parser(jsonParse), Source(env)[j].1) == Ok(t.entries[i].1);
      assert Source(env)[j].1 == Str(env[j].1);
    }
  }
}
