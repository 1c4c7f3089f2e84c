/**
 * lib/filter.js: `filter(env, validate, options)` over an explicit source
 * object, with argument-shape checks and a lenient JSON parse that also lets
 * numbers and dates through.
 */
module LibFilter {
  import opened JsValues
  import opened Filtering

  /** The `env` argument: an object, given by its own enumerable properties in
      Object.keys order, or a value that is not an object (null, undefined, a
      boolean, number or string primitive). */
  datatype Env = Keyed(entries: Entries) | NotAnObject

  /** `parse`: a non-empty string goes through JSON.parse; when that fails the
      error escapes only if the text opens with `{` or `[` (after whitespace),
      otherwise the string itself is kept. Numbers and dates pass through;
      anything else, the empty string included, gives undefined. */
  function Parse(jsonParse: JsonParse, value: Val): (r: Result<Val>)
    ensures value.Str? && value.s != "" && jsonParse(value.s).Ok? ==> r == jsonParse(value.s)
    ensures value.Str? && value.s != "" && jsonParse(value.s).Err? ==>
              if OpensStructure(value.s) then r == jsonParse(value.s) else r == Ok(value)
    ensures value.Num? || value.Date? ==> r == Ok(value)
    ensures !(value.Str? && value.s != "") && !value.Num? && !value.Date? ==> r == Ok(Undef)
  {
    if value.Str? && value.s != "" then
      LooksStructuredOpensStructure(value.s);
      match jsonParse(value.s)
      case Ok(parsed) => Ok(parsed)
      case Err(e) => if LooksStructured(value.s) then Err(e) else Ok(value)
    else if value.Num? || value.Date? then
      Ok(value)
    else
      Ok(Undef)
  }

  /** `parse` as the value the loop calls. */
  function Parser(jsonParse: JsonParse): Val -> Result<Val>
  {
    v => Parse(jsonParse, v)
  }

  /** The exported function: the environment is checked first, the validator
      second, and only then is any key visited. */
  function Filter(jsonParse: JsonParse, env: Env, validate: Validator, options: Options): (r: Result<Table>)
    ensures env.NotAnObject? ==> r == Err(TypeError(InvalidEnvironment))
    ensures env.Keyed? && validate.Unusable? ==> r == Err(TypeError(InvalidValidationFunction))
    ensures r.Ok? ==> r.value.frozen == (options.Given? && options.freeze == Bool(true))
    ensures r.Ok? ==> DistinctNames(r.value.entries)
  {
    match env
    case NotAnObject => Err(TypeError(InvalidEnvironment))
    case Keyed(source) =>
      match Predicate(validate)
      case None => Err(TypeError(InvalidValidationFunction))
      case Some(isValid) => Build(isValid, options, Parser(jsonParse), source)
  }

  /** The exported function as the source runs it, step by step. */
  method RunFilter(jsonParse: JsonParse, env: Env, validate: Validator, options: Options) returns (r: Result<Table>)
    ensures r == Filter(jsonParse, env, validate, options)
  {
    if env.NotAnObject? {
      return Err(TypeError(InvalidEnvironment));
    }
    var isValid := Predicate(validate);
    if isValid.None? {
      return Err(TypeError(InvalidValidationFunction));
    }
    r := BuildTable(isValid.value, options, Parser(jsonParse), env.entries);
  }

  /** `stored` is what the filter writes for the source entry `entry`: the
      key passes, the name is `format(key)` and not empty, and the value is
      the source value (json off) or its parse (json on), not undefined,
      frozen under `freeze` when it is a plain object. */
  ghost predicate Writes(jsonParse: JsonParse, isValid: string -> bool, options: Options,
                         entry: (string, Val), stored: (string, Val))
  {
    var s := Resolve(options);
    var value := if s.json then Parse(jsonParse, entry.1) else Ok(entry.1);
    && isValid(entry.0)
    && stored.0 == s.format(entry.0) && stored.0 != ""
    && value.Ok? && !value.value.Undef? && !stored.1.Undef?
    && stored.1 == Store(s.freeze, value.value)
  }

  /** Soundness: every result entry is what the filter writes for some
      source entry. */
  lemma FilterSound(jsonParse: JsonParse, source: Entries, validate: Validator, options: Options, t: Table)
    requires Filter(jsonParse, Keyed(source), validate, options) == Ok(t)
    ensures !validate.Unusable?
    ensures forall i :: 0 <= i < |t.entries| ==>
              exists j :: 0 <= j < |source| && Writes(jsonParse, Predicate(validate).value, options, source[j], t.entries[i])
  {
    var isValid := Predicate(validate).value;
    var s := Resolve(options);
    var parse := Parser(jsonParse);
    assert Collect(isValid, s, parse, [], source) == Ok(t.entries);
    CollectSound(isValid, s, parse, [], source, t.entries);
    forall i | 0 <= i < |t.entries|
      ensures exists j :: 0 <= j < |source| && Writes(jsonParse, isValid, options, source[j], t.entries[i])
    {
      var j :| 0 <= j < |source| && Produces(isValid, s, parse, source[j], t.entries[i]);
      assert FreezePlain(ValueOf(s, parse, source[j].1).value) != Undef;
      assert Writes(jsonParse, isValid, options, source[j], t.entries[i]);
    }
  }

  /** With `json` off and no `format` function, the result is exactly the
      source entries whose non-empty key passes, whose value is not
      undefined, in source order, values unchanged (plain objects frozen
      under `freeze`). */
  lemma PlainFilterKeepsMatches(jsonParse: JsonParse, source: Entries, validate: Validator, options: Options)
    requires DistinctKeys(source)
    requires !validate.Unusable?
    requires !(options.Given? && (options.json == Bool(true) || options.format.Some?))
    ensures Filter(jsonParse, Keyed(source), validate, options) ==
            Ok(Table(Kept(Predicate(validate).value, Resolve(options).freeze, source), Resolve(options).freeze))
  {
    CollectIdentity(Predicate(validate).value, Resolve(options), Parser(jsonParse), source);
  }

  /** The JSON fallback: a call that gets past the argument checks throws only
      when `json` is on and some key that passes, with a non-empty name, holds
      a non-empty string that JSON.parse rejects and that opens with `{` or
      `[`; the error is JSON.parse's own. */
  lemma FilterThrowsOnlyOnStructured(jsonParse: JsonParse, source: Entries, validate: Validator,
                                     options: Options, e: Error)
    requires !validate.Unusable?
    requires Filter(jsonParse, Keyed(source), validate, options) == Err(e)
    ensures options.Given? && options.json == Bool(true)
    ensures exists j :: 0 <= j < |source| &&
              var (key, raw) := source[j];
              && Predicate(validate).value(key) && Resolve(options).format(key) != ""
              && raw.Str? && raw.s != "" && OpensStructure(raw.s) && jsonParse(raw.s) == Err(e)
  {
    var isValid := Predicate(validate).value;
    var s := Resolve(options);
    CollectErrorFromParse(isValid, s, Parser(jsonParse), [], source, e);
    var j :| 0 <= j < |source| && isValid(source[j].0) && s.format(source[j].0) != "" &&
             Parser(jsonParse)(source[j].1) == Err(e);
    assert Parse(jsonParse, source[j].1) == Err(e);
  }

  /** A RegExp validator acts exactly as the function `key => test(key)`. */
  lemma RegExpActsAsTest(jsonParse: JsonParse, env: Env, test: string -> bool, options: Options)
    ensures Filter(jsonParse, env, Pattern(test), options) == Filter(jsonParse, env, Callable(test), options)
  {
  }

  /** Option defaulting: `json` and `freeze` count only when they are exactly
      `true` (any other value acts as `false`), no options act as `{}`, and a
      `format` that is not a function acts as the identity. */
  lemma OptionsOnlyForTrue(jsonParse: JsonParse, env: Env, validate: Validator,
                           json: Val, freeze: Val, format: Option<string -> string>)
    ensures Filter(jsonParse, env, validate, Given(json, freeze, format)) ==
            Filter(jsonParse, env, validate, Given(Bool(json == Bool(true)), Bool(freeze == Bool(true)), format))
    ensures Filter(jsonParse, env, validate, Absent) == Filter(jsonParse, env, validate, Given(Undef, Undef, None))
    ensures Filter(jsonParse, env, validate, Given(json, freeze, None)) ==
            Filter(jsonParse, env, validate, Given(json, freeze, Some(Identity)))
  {
    assert Resolve(Given(json, freeze, format)) ==
           Resolve(Given(Bool(json == Bool(true)), Bool(freeze == Bool(true)), format));
    assert Resolve(Absent) == Resolve(Given(Undef, Undef, None));
    assert Resolve(Given(json, freeze, None)) == Resolve(Given(json, freeze, Some(Identity)));
  }

  /** The converse of FilterThrowsOnlyOnStructured: under `json`, once the
      keys before it leave a name free, a passing key with that name whose
      text opens with `{` or `[` and is rejected by JSON.parse makes the whole
      call throw JSON.parse's error, whatever keys follow. */
  lemma StructuredParseErrorThrows(jsonParse: JsonParse, before: Entries, key: string, text: string,
                                   after: Entries, validate: Validator, options: Options, t: Table, e: Error)
    requires Filter(jsonParse, Keyed(before), validate, options) == Ok(t)
    requires options.Given? && options.json == Bool(true)
    requires Predicate(validate).Some? && Predicate(validate).value(key)
    requires Resolve(options).format(key) != "" && Resolve(options).format(key) !in Names(t.entries)
    requires OpensStructure(text) && jsonParse(text) == Err(e)
    ensures Filter(jsonParse, Keyed(before + [(key, Str(text))] + after), validate, options) == Err(e)
  {
    var isValid := Predicate(validate).value;
    var s := Resolve(options);
    assert Collect(isValid, s, Parser(jsonParse), [], before) == Ok(t.entries);
    assert text != [];
    assert Parse(jsonParse, Str(text)) == Err(e);
    ParseErrorStops(isValid, s, Parser(jsonParse), before, t.entries, key, Str(text), after, e);
  }

  // ---------------------------------------------------------------------
  // Scenarios from the repository's tests

  /** A property that already exists is not added: with `{ json: true,
      format }` where `format` renames TEST_INTEGER_VALUE to
      TEST_NUMBER_VALUE, the number parsed from TEST_NUMBER_VALUE's text is
      kept and the integer that follows it is not. */
  lemma CollidingNamesKeepFirst(jsonParse: JsonParse, isValid: string -> bool, format: string -> string,
                                text: string, n: real)
    requires isValid("TEST_NUMBER_VALUE") && isValid("TEST_INTEGER_VALUE")
    requires format("TEST_NUMBER_VALUE") == "TEST_NUMBER_VALUE" && format("TEST_INTEGER_VALUE") == "TEST_NUMBER_VALUE"
    requires text != [] && jsonParse(text) == Ok(Num(n))
    ensures Filter(jsonParse, Keyed([("TEST_NUMBER_VALUE", Str(text)), ("TEST_INTEGER_VALUE", Num(123.0))]),
                   Callable(isValid), Given(Bool(true), Undef, Some(format)))
            == Ok(Table([("TEST_NUMBER_VALUE", Num(n))], false))
  {
    var source := [("TEST_NUMBER_VALUE", Str(text)), ("TEST_INTEGER_VALUE", Num(123.0))];
    var s := Resolve(Given(Bool(true), Undef, Some(format)));
    var parse := Parser(jsonParse);
    var first := [("TEST_NUMBER_VALUE", Num(n))];
    assert s.json && !s.freeze && s.format("TEST_NUMBER_VALUE") == "TEST_NUMBER_VALUE";
    var empty: Entries := [];
    assert "TEST_NUMBER_VALUE" !in Names(empty);
    assert Parse(jsonParse, Str(text)) == Ok(Num(n));
    assert Store(s.freeze, Num(n)) == Num(n);
    assert empty + [("TEST_NUMBER_VALUE", Num(n))] == first;
    assert Visit(isValid, s, parse, empty, source[0]) == Ok(first);
    assert Names(first) == ["TEST_NUMBER_VALUE"];
    assert Visit(isValid, s, parse, first, source[1]) == Ok(first);
    assert source[1..][0] == source[1] && source[1..][1..] == [];
    assert Collect(isValid, s, parse, first, source[1..]) == Ok(first);
  }

  /** Under `json`, a text that JSON.parse rejects and that does not open
      with `{` or `[` (such as `TestString`) is kept as it is, and an empty
      value is left out. */
  lemma JsonFallbackScenario(jsonParse: JsonParse, isValid: string -> bool, text: string, e: Error)
    requires isValid("TEST_STRING_VALUE") && isValid("TEST_EMPTY_VALUE")
    requires text != [] && !IsJsSpace(text[0]) && text[0] != '{' && text[0] != '['
    requires jsonParse(text) == Err(e)
    ensures Filter(jsonParse, Keyed([("TEST_STRING_VALUE", Str(text)), ("TEST_EMPTY_VALUE", Str(""))]),
                   Callable(isValid), Given(Bool(true), Undef, None))
            == Ok(Table([("TEST_STRING_VALUE", Str(text))], false))
  {
    var source := [("TEST_STRING_VALUE", Str(text)), ("TEST_EMPTY_VALUE", Str(""))];
    var s := Resolve(Given(Bool(true), Undef, None));
    var parse := Parser(jsonParse);
    var empty: Entries := [];
    var first := [("TEST_STRING_VALUE", Str(text))];
    assert !OpensStructure(text);
    assert s.json && !s.freeze && s.format("TEST_STRING_VALUE") == "TEST_STRING_VALUE";
    assert Parse(jsonParse, Str(text)) == Ok(Str(text));
    assert "TEST_STRING_VALUE" !in Names(empty);
    assert empty + [("TEST_STRING_VALUE", Str(text))] == first;
    assert Visit(isValid, s, parse, empty, source[0]) == Ok(first);
    assert Parse(jsonParse, Str("")) == Ok(Undef);
    assert Visit(isValid, s, parse, first, source[1]) == Ok(first);
    assert source[1..][0] == source[1] && source[1..][1..] == [];
    assert Collect(isValid, s, parse, first, source[1..]) == Ok(first);
    assert Collect(isValid, s, parse, empty, source) == Ok(first);
    assert Build(isValid, Given(Bool(true), Undef, None), parse, source) == Ok(Table(first, false));
  }

  /** The test's malformed values: with `{ json: true }` and a pattern that
      rejects every key before it, a key whose text opens with `{` or `[`
      and that JSON.parse rejects (a truncated object or array) makes the
      call throw JSON.parse's own error, whatever keys follow. */
  lemma MalformedJsonThrows(jsonParse: JsonParse, test: string -> bool, before: Entries,
                            key: string, text: string, after: Entries, e: Error)
    requires forall k :: 0 <= k < |before| ==> !test(before[k].0)
    requires test(key) && key != ""
    requires text != [] && (text[0] == '{' || text[0] == '[')
    requires jsonParse(text) == Err(e)
    ensures Filter(jsonParse, Keyed(before + [(key, Str(text))] + after), Pattern(test), Given(Bool(true), Undef, None))
            == Err(e)
  {
    var s := Resolve(Given(Bool(true), Undef, None));
    var empty: Entries := [];
    assert 0 < |text| && (text[0] == '{' || text[0] == '[');
    assert OpensStructure(text);
    assert Parse(jsonParse, Str(text)) == Err(e);
    assert s.json && s.format(key) == key;
    CollectNoneAccepted(test, s, Parser(jsonParse), empty, before);
    assert key !in Names(empty);
    ParseErrorStops(test, s, Parser(jsonParse), before, empty, key, Str(text), after, e);
  }
}
