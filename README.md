# filter-env, modelled in Dafny

filter-env builds a new key/value object from an environment: it keeps the
keys a validator accepts, optionally renames them with a `format` function,
optionally parses their values as JSON, and optionally freezes the result.
The repository holds two copies of this logic:

- `lib/filter.js` exports `filter(env, validate, options)`. It checks that
  `env` is an object and that `validate` is a RegExp or a function, and its
  `parse` passes numbers and dates through.
- `index.js` exports `filterEnv(validate, options)` over `process.env`. It is
  a standalone copy, not a wrapper. It has no environment check, and its
  `parse` keeps only non-empty strings.

The two loops are identical except for the source they read and the `parse`
they call. The model therefore has one loop, generic in the parse rule, and
each copy instantiates it.

Modules:

- `JsValues` (`js_values.dfy`): JavaScript values as a tagged datatype
  (`Str | Num | Date | Bool | Null | Undef | Arr | Obj | Other`, where `Obj`
  is a plain object with a `frozen` flag). It also holds the two exceptions
  (`TypeError`, `SyntaxError`) with their messages, a `Result` type,
  `String.prototype.trim`, and `Object.freeze` on plain objects.
- `Filtering` (`filtering.dfy`): validator and option resolution, and the
  filtering loop. The loop is stated twice: as the recursive specification
  `Collect` and as the imperative method `CollectEntries`, which is proved
  equal to it. The lemmas about the loop live here too.
- `LibFilter` (`lib_filter.dfy`): `lib/filter.js`, with its `parse`, the
  exported function, and scenarios taken from its tests.
- `ProcessEnv` (`process_env.dfy`): `index.js`, over a snapshot of
  `process.env`, with its own `parse` compared against the library's.

Host services are parameters. JSON.parse is a function
`string -> Result<Val>` that returns a value or the engine's SyntaxError.
`RegExp.prototype.test` is the `test: string -> bool` of a `Pattern`
validator. The environment is a sequence of (key, value) pairs in
`Object.keys` order.

Two behaviours of the code are worth stating up front:

- With `json: true`, an empty string value gives `undefined`, so its key is
  left out of the result. `''` is a string but falsy, so it fails the test
  `_.isString(value) && value` (`lib/filter.js:15`). It is neither a number
  nor a date either, so `parse` returns undefined (`lib/filter.js:25-27`).
  The expected result in
  `test/filter.js:91-101` has no `TEST_EMPTY_VALUE`.
- `index.js` does not delegate to `lib/filter.js` and does not re-export it.
  It is a copy with a different `parse` and no environment check.

## Model

| member | source | states |
|---|---|---|
| `JsValues.TrimStart` | lib/filter.js:19 | The result is a suffix of the input. Everything removed is JavaScript whitespace, and the result does not start with whitespace. |
| `JsValues.TrimEnd` | lib/filter.js:19 | The result is a prefix of the input. Everything removed is JavaScript whitespace, and the result does not end with whitespace. |
| `JsValues.FirstOfTrimmedIsFirstNonSpace` | lib/filter.js:19 | `value.trim().substring(0, 1)` is the first character left after removing leading whitespace, or empty when nothing is left. |
| `JsValues.LooksStructuredOpensStructure` | lib/filter.js:19-20 | `value.trim().substring(0, 1)` is `{` or `[` exactly when the first non-whitespace character of the value is `{` or `[`. |
| `LibFilter.RegExpActsAsTest` | lib/filter.js:43-47 | A RegExp validator gives exactly the result of the function `key => validate.test(key)`, for every environment and every options value. |
| `LibFilter.OptionsOnlyForTrue` | lib/filter.js:51-60 | `json` and `freeze` act only when they are exactly `true`: any other value gives the result of `false`. Missing options give the result of `{}`, and a `format` that is not a function gives the result of the identity. |
| `Filtering.CollectEntries` | lib/filter.js:61-75 | The `forEach` loop computes exactly `Collect` from an empty object, including the exception that stops it. |
| `Filtering.Build` | lib/filter.js:61-76 | The result is frozen exactly when `options.freeze === true`, and no name appears in it twice. |
| `Filtering.BuildTable` | lib/filter.js:51-76 | Defaulting the options into locals, running the loop and freezing gives exactly `Build`. |
| `Filtering.CollectSound` | lib/filter.js:62-71 | The loop only appends. Each appended entry comes from a source entry that passes the validator, with the name `format(key)` (non-empty) and a value that was computed and is not undefined. Under `freeze` a plain-object value is frozen; every other value is stored as computed. |
| `Filtering.CollectDistinct` | lib/filter.js:65 | The loop never writes a name that is already present. |
| `Filtering.FirstWriteWins` | lib/filter.js:63-71 | The entry under a name is the one for the first source entry whose key passes, whose name is that name, and whose value is not undefined. No later key overwrites it. |
| `Filtering.CollectFirstWrites` | lib/filter.js:63-71 | Every entry of the result is the one written for a source entry whose key passes, whose name is non-empty, and whose value is kept, and no earlier source entry claims that name. |
| `Filtering.SkippedValueIrrelevant` | lib/filter.js:63-66 | A source value is never looked at when its key fails the validator, when its name is empty, or when its name is already taken. Replacing it changes nothing, so a malformed value there cannot throw. |
| `Filtering.CollectErrorFromParse` | lib/filter.js:65-66 | The loop throws only under `json`, and only `parse`'s error, raised on the value of a key that passes and has a non-empty name. |
| `Filtering.ParseErrorStops` | lib/filter.js:63-66 | Conversely, a key that passes, whose name is non-empty and not yet taken, and whose value `parse` rejects, stops the whole loop with that error, whatever keys follow. |
| `Filtering.CollectNoneAccepted` | lib/filter.js:62-63 | Keys that all fail the validator leave the object unchanged and never throw, whatever their values. |
| `Filtering.CollectIdentity` | lib/filter.js:62-71 | With `json` off and the identity format, the result is exactly the source entries with a non-empty passing key and a defined value, in source order. Values are unchanged, except that plain objects are frozen under `freeze`. |
| `Filtering.FreezeStored` | lib/filter.js:68-71 | Every stored value is the value computed from some source value. Under `freeze`, a plain object is stored as that object with its properties unchanged and marked frozen. Every other stored value, arrays included, and every value when `freeze` is off, is stored exactly as computed. |
| `LibFilter.Parse` | lib/filter.js:14-28 | A non-empty string gives JSON.parse's value. If JSON.parse fails, the result is its error when the text opens with `{` or `[`, and the string itself otherwise. Numbers and dates pass through. Everything else, the empty string included, gives undefined. |
| `LibFilter.Filter` | lib/filter.js:38-77 | A non-object environment throws TypeError "Invalid environment" whatever the validator. Otherwise an unusable validator throws TypeError "Invalid validation function". A result is frozen exactly when `options.freeze === true` and has distinct names. |
| `LibFilter.RunFilter` | lib/filter.js:38-77 | The exported function, step by step, computes exactly `Filter`. |
| `LibFilter.FilterSound` | lib/filter.js:62-71 | Each result entry is named `format(key)` (non-empty) for a source key that passes. Its value is the source value (json off) or its `parse` (json on), never undefined, and frozen under `freeze` when it is a plain object. |
| `LibFilter.PlainFilterKeepsMatches` | lib/filter.js:62-71 | With json off and no `format` function, the result is exactly the source entries with a non-empty passing key and a defined value, in source order. |
| `LibFilter.FilterThrowsOnlyOnStructured` | lib/filter.js:16-22 | Once the argument checks pass, a call throws only with `json: true`, and only JSON.parse's own error on a non-empty string that opens with `{` or `[`, under a passing key with a non-empty name. |
| `LibFilter.StructuredParseErrorThrows` | lib/filter.js:16-22 | Conversely, under `json`, once the keys before it leave a name free, a passing key with that name whose text opens with `{` or `[` and that JSON.parse rejects makes the whole call throw JSON.parse's error, whatever keys follow. |
| `LibFilter.CollidingNamesKeepFirst` | lib/filter.js:64-65 | With `{ json: true, format }` where `format` renames TEST_INTEGER_VALUE to TEST_NUMBER_VALUE, the result holds only TEST_NUMBER_VALUE, with the number parsed from its own text. The integer that comes after it does not overwrite it. |
| `LibFilter.JsonFallbackScenario` | lib/filter.js:15-27 | Under `json`, a text such as `TestString` is kept as the string: JSON.parse rejects it, and its first character is neither whitespace, `{` nor `[`. An empty value is left out. |
| `LibFilter.MalformedJsonThrows` | lib/filter.js:18-22 | With `{ json: true }` and a pattern that rejects every earlier key, a key whose text starts with `{` or `[` and that JSON.parse rejects makes the call throw JSON.parse's error, whatever keys follow. |
| `ProcessEnv.Parse` | index.js:24-36 | A non-empty string follows the same JSON rule as the library. Every other value, numbers, dates and the empty string included, gives undefined. |
| `ProcessEnv.ParseAgainstLib` | index.js:24-36 | The two `parse` functions agree on every value except numbers and dates. The library passes those through, and index.js turns them into undefined. |
| `ProcessEnv.RegExpActsAsTest` | index.js:47-51 | A RegExp validator gives exactly the result of the function `key => validate.test(key)`. |
| `ProcessEnv.OptionsOnlyForTrue` | index.js:55-64 | `json` and `freeze` act only when they are exactly `true`. Missing options act as `{}`, and a `format` that is not a function acts as the identity. |
| `ProcessEnv.FilterEnv` | index.js:45-81 | An unusable validator throws TypeError "Invalid validation function". There is no environment check. A result is frozen exactly when `options.freeze === true` and has distinct names. |
| `ProcessEnv.RunFilterEnv` | index.js:45-81 | The exported function, step by step, computes exactly `FilterEnv`. |
| `ProcessEnv.FilterEnvNames` | index.js:66-79 | Each result entry comes from an accepted environment key and is named `format(key)`, which is non-empty. It is the entry of the first such key with a kept value, so no later key overwrites it. |
| `ProcessEnv.RawStringsWithoutJson` | index.js:66-70 | With json off, every result value is the string of some environment variable, unchanged, under the name `format(key)`. |
| `ProcessEnv.ParsedFromNonEmptyStrings` | index.js:69-76 | With json on, every result value comes from a non-empty environment string. It is JSON.parse's value, or the string itself when JSON.parse fails and the text does not open with `{` or `[`. Empty values never appear. |
| `ProcessEnv.ParsedEntry` | index.js:24-36 | Under `json`, an entry written for an environment variable has a non-empty value, and its value is JSON.parse's result, or the string itself when JSON.parse fails and the text does not open with `{` or `[`. |
| `ProcessEnv.FilterEnvThrowsOnlyOnStructured` | index.js:26-34 | Once the validator is accepted, a call throws only with `json: true`, and only JSON.parse's error on a non-empty value that opens with `{` or `[`, under a passing key with a non-empty name. |
| `ProcessEnv.StructuredParseErrorThrows` | index.js:26-34 | Conversely, under `json`, once the variables before it leave a name free, a passing variable with that name whose value opens with `{` or `[` and that JSON.parse rejects makes the whole call throw JSON.parse's error. |
| `ProcessEnv.FreezeEnv` | index.js:72-80 | Under `freeze`, the result and every plain-object value in it are frozen. Without `freeze`, the result is not frozen and every value is stored as computed. |

## Left out

- JSON.parse itself (the RFC 8259 grammar and number conversion) is a parameter. The model does not check that it returns only JSON values or that its message is "Unexpected end of input".
- The regular-expression engine is left out. A RegExp validator is its `test` function.
- Reading `process.env` is left out: `index.js` is modelled over a snapshot passed in. The host coerces environment values to strings, so the snapshot holds strings.
- Boxed primitives are not modelled. `_.isString` and `_.isNumber` also accept `new String(…)` and `new Number(…)`, which `parse` (`lib/filter.js:15`, `25`) would parse or pass through. The model files such a value under `Other`, so `parse` gives undefined and the key is dropped.
- A RegExp with the global (`g`) or sticky (`y`) flag is not modelled. Its `test` depends on `lastIndex`, so its answer for a key depends on the keys tested before it (`lib/filter.js:44`, `index.js:48`). `Pattern` holds a stateless `test`.
- lodash's type predicates become pattern matches on the value datatype. `_.has(config, name)` is modelled as "name is already a key of the result". lodash's reading of `name` as a property path (`a.b`) and the special key `__proto__` are not modelled.
- `format` is a function from strings to strings, and `""` is the only falsy name. A `format` that returns a non-string (a number, `null`, an object) is not modelled.
- The validator and `format` are pure functions. Exceptions they throw, and side effects they have, are not modelled. A function validator returns a boolean that stands for the truthiness of its result.
- A truthy `options` value that is not an object behaves like `Given(Undef, Undef, None)`, so it has no separate case.
- `Object.freeze` is a flag on the result and on plain-object values. Strict-mode write errors, deep immutability, and the aliasing that makes the freeze reach a caller-owned object when `json` is off are not modelled.
- Numbers are `real`. NaN and the infinities are not represented, and `parse` treats them like other numbers.
- The repeated `_.isNumber(value)` test in `lib/filter.js:25` does not change behaviour and is modelled once.
- JavaScript's ordering of integer-like keys first is not modelled, on either side. The source is taken as already in `Object.keys` order. The result's entries are in insertion order. For integer-like names (`"1"`, `"42"`), enumerating the result lists those names first, in numeric order, so "in source order" in `CollectIdentity` and `PlainFilterKeepsMatches` is the model's insertion order, not what `Object.keys` returns for the result.
