/**
 * The filtering loop shared, token for token, by both copies of the filter:
 * resolve the options, walk the source keys in enumeration order, and build a
 * fresh table under the skip rules and first-write-wins. The parse rule is a
 * parameter because the two copies differ only there.
 */
module Filtering {
  import opened JsValues

  /** The `validate` argument: a RegExp (given by its `test`), a function
      whose truthiness decides, or anything else. */
  datatype Validator = Pattern(test: string -> bool) | Callable(call: string -> bool) | Unusable

  /** The `options` argument. `Absent` is any falsy value (nothing given);
      a present bag carries its `json` and `freeze` fields as given and its
      `format` field when that is a function. */
  datatype Options = Absent | Given(json: Val, freeze: Val, format: Option<string -> string>)

  /** The options after defaulting; a name is falsy exactly when it is "". */
  datatype Settings = Settings(json: bool, freeze: bool, format: string -> string)

  /** The result object: its entries in insertion order and whether it is frozen. */
  datatype Table = Table(entries: Entries, frozen: bool)

  type Entries = seq<(string, Val)>

  function Identity(key: string): string
  {
    key
  }

  /** The effective key predicate, or None when the validator is unusable. */
  function Predicate(validate: Validator): Option<string -> bool>
  {
    match validate
    case Pattern(test) => Some(test)
    case Callable(call) => Some(call)
    case Unusable => None
  }

  /** Option defaulting: `json` and `freeze` switch on only for exactly
      `true`, and a `format` that is not a function leaves the identity. */
  function Resolve(options: Options): Settings
  {
    match options
    case Absent => Settings(false, false, Identity)
    case Given(json, freeze, format) =>
      Settings(json == Bool(true), freeze == Bool(true), if format.Some? then format.value else Identity)
  }

  function Names(config: Entries): seq<string>
  {
    seq(|config|, i requires 0 <= i < |config| => config[i].0)
  }

  predicate DistinctNames(config: Entries)
  {
    forall i, j :: 0 <= i < j < |config| ==> config[i].0 != config[j].0
  }

  /** The value the loop computes for a raw value: parsed under `json`,
      otherwise the raw value itself. */
  function ValueOf(s: Settings, parse: Val -> Result<Val>, raw: Val): Result<Val>
  {
    if s.json then parse(raw) else Ok(raw)
  }

  /** The value the loop stores: plain objects frozen under `freeze`. */
  function Store(freeze: bool, v: Val): Val
  {
    if freeze then FreezePlain(v) else v
  }

  /** One iteration of the loop on `config` for the source entry (key, raw). */
  function Visit(isValid: string -> bool, s: Settings, parse: Val -> Result<Val>,
                 config: Entries, entry: (string, Val)): Result<Entries>
  {
    var (key, raw) := entry;
    if !isValid(key) then Ok(config)
    else
      var name := s.format(key);
      if name == "" || name in Names(config) then Ok(config)
      else
        var value :- ValueOf(s, parse, raw);
        if value.Undef? then Ok(config)
        else Ok(config + [(name, Store(s.freeze, value))])
  }

  /** The whole loop, starting from `config`, over the remaining source entries. */
  function Collect(isValid: string -> bool, s: Settings, parse: Val -> Result<Val>,
                   config: Entries, source: Entries): Result<Entries>
    decreases |source|
  {
    if source == [] then Ok(config)
    else
      var next :- Visit(isValid, s, parse, config, source[0]);
      Collect(isValid, s, parse, next, source[1..])
  }

  /** Resolve the options, run the loop from an empty object, freeze the result on request. */
  function Build(isValid: string -> bool, options: Options, parse: Val -> Result<Val>,
                 source: Entries): (r: Result<Table>)
    ensures r.Ok? ==> r.value.frozen == (options.Given? && options.freeze == Bool(true))
    ensures r.Ok? ==> DistinctNames(r.value.entries)
  {
    var s := Resolve(options);
    var entries :- Collect(isValid, s, parse, [], source);
    CollectDistinct(isValid, s, parse, [], source, entries);
    Ok(Table(entries, s.freeze))
  }

  /** The forEach loop: one pass over the source, inserting into a fresh object. */
  method CollectEntries(isValid: string -> bool, s: Settings, parse: Val -> Result<Val>,
                        source: Entries) returns (r: Result<Entries>)
    ensures r == Collect(isValid, s, parse, [], source)
  {
    var config: Entries := [];
    var i := 0;
    while i < |source|
      invariant 0 <= i <= |source|
      invariant Collect(isValid, s, parse, config, source[i..]) == Collect(isValid, s, parse, [], source)
    {
      var (key, raw) := source[i];
      assert source[i..][1..] == source[i + 1..];
      if isValid(key) {
        var name := s.format(key);
        if name != "" && name !in Names(config) {
          var value: Val;
          if s.json {
            var parsed := parse(raw);
            if parsed.Err? {
              return Err(parsed.error);
            }
            value := parsed.value;
          } else {
            value := raw;
          }
          if !value.Undef? {
            if s.freeze {
              value := FreezePlain(value);
            }
            config := config + [(name, value)];
          }
        }
      }
      i := i + 1;
    }
    return Ok(config);
  }

  /** The body of the exported function after its argument checks: default
      the options into locals, run the loop, freeze the result on request. */
  method BuildTable(isValid: string -> bool, options: Options, parse: Val -> Result<Val>,
                    source: Entries) returns (r: Result<Table>)
    ensures r == Build(isValid, options, parse, source)
  {
    var json, freeze, format := false, false, Identity;
    if options.Given? {
      json := options.json == Bool(true);
      freeze := options.freeze == Bool(true);
      if options.format.Some? {
        format := options.format.value;
      }
    }
    var entries := CollectEntries(isValid, Settings(json, freeze, format), parse, source);
    if entries.Err? {
      return Err(entries.error);
    }
    r := Ok(Table(entries.value, freeze));
  }

  // ---------------------------------------------------------------------
  // Properties of the loop

  /** A source entry claims a name: its key passes, its formatted name is
      non-empty, and the computed value exists and is not undefined. */
  predicate Claims(isValid: string -> bool, s: Settings, parse: Val -> Result<Val>, entry: (string, Val))
  {
    var value := ValueOf(s, parse, entry.1);
    isValid(entry.0) && s.format(entry.0) != "" && value.Ok? && !value.value.Undef?
  }

  /** The entry stored for a claiming source entry. */
  function Stored(s: Settings, parse: Val -> Result<Val>, entry: (string, Val)): (string, Val)
    requires ValueOf(s, parse, entry.1).Ok?
  {
    (s.format(entry.0), Store(s.freeze, ValueOf(s, parse, entry.1).value))
  }

  /** `stored` is what the loop writes for `entry`. */
  predicate Produces(isValid: string -> bool, s: Settings, parse: Val -> Result<Val>,
                     entry: (string, Val), stored: (string, Val))
  {
    Claims(isValid, s, parse, entry) && stored == Stored(s, parse, entry)
  }

  /** Collecting a concatenation is collecting the first part, then the second. */
  lemma {:induction false} CollectAppend(isValid: string -> bool, s: Settings, parse: Val -> Result<Val>,
                                         config: Entries, a: Entries, b: Entries)
    ensures Collect(isValid, s, parse, config, a + b) ==
            match Collect(isValid, s, parse, config, a)
            case Ok(mid) => Collect(isValid, s, parse, mid, b)
            case Err(e) => Err(e)
    decreases |a|
  {
    if a != [] {
      assert (a + b)[0] == a[0] && (a + b)[1..] == a[1..] + b;
      match Visit(isValid, s, parse, config, a[0])
      case Ok(next) => CollectAppend(isValid, s, parse, next, a[1..], b);
      case Err(_) =>
    } else {
      assert a + b == b;
    }
  }

  /** Soundness: the loop only appends, and everything it appends was
      produced by some source entry. */
  lemma {:induction false} CollectSound(isValid: string -> bool, s: Settings, parse: Val -> Result<Val>,
                                        config: Entries, source: Entries, out: Entries)
    requires Collect(isValid, s, parse, config, source) == Ok(out)
    ensures |config| <= |out| && out[..|config|] == config
    ensures forall i :: |config| <= i < |out| ==>
              exists j :: 0 <= j < |source| && Produces(isValid, s, parse, source[j], out[i])
    decreases |source|
  {
    if source != [] {
      var next := Visit(isValid, s, parse, config, source[0]).value;
      CollectSound(isValid, s, parse, next, source[1..], out);
      forall i | |next| <= i < |out|
        ensures exists j :: 0 <= j < |source| && Produces(isValid, s, parse, source[j], out[i])
      {
        var j :| 0 <= j < |source[1..]| && Produces(isValid, s, parse, source[1..][j], out[i]);
        assert source[1..][j] == source[j + 1];
      }
      if next != config {
        assert out[|config|] == next[|config|];
        assert Produces(isValid, s, parse, source[0], out[|config|]);
      }
    }
  }

  /** The loop never writes a name twice. */
  lemma {:induction false} CollectDistinct(isValid: string -> bool, s: Settings, parse: Val -> Result<Val>,
                                           config: Entries, source: Entries, out: Entries)
    requires DistinctNames(config)
    requires Collect(isValid, s, parse, config, source) == Ok(out)
    ensures DistinctNames(out)
    decreases |source|
  {
    if source != [] {
      var next := Visit(isValid, s, parse, config, source[0]).value;
      if next != config {
        assert forall i :: 0 <= i < |config| ==> config[i].0 == Names(config)[i];
      }
      CollectDistinct(isValid, s, parse, next, source[1..], out);
    }
  }

  /** First write wins: a source entry that claims a name nobody claimed
      before it (nor holds in `config`) is stored, and stored as itself. */
  lemma {:induction false} FirstClaimStored(isValid: string -> bool, s: Settings, parse: Val -> Result<Val>,
                                            config: Entries, source: Entries, out: Entries, j: nat)
    requires Collect(isValid, s, parse, config, source) == Ok(out)
    requires j < |source| && Claims(isValid, s, parse, source[j])
    requires s.format(source[j].0) !in Names(config)
    requires forall k :: 0 <= k < j && Claims(isValid, s, parse, source[k]) ==>
               s.format(source[k].0) != s.format(source[j].0)
    ensures exists i :: |config| <= i < |out| && out[i] == Stored(s, parse, source[j])
    decreases |source|
  {
    var next := Visit(isValid, s, parse, config, source[0]).value;
    if j == 0 {
      CollectSound(isValid, s, parse, next, source[1..], out);
      assert out[|config|] == next[|config|];
    } else {
      var name := s.format(source[j].0);
      assert name !in Names(next) by {
        if next != config {
          assert Claims(isValid, s, parse, source[0]);
          assert Names(next) == Names(config) + [s.format(source[0].0)];
        }
      }
      forall k | 0 <= k < j - 1 && Claims(isValid, s, parse, source[1..][k])
        ensures s.format(source[1..][k].0) != s.format(source[1..][j - 1].0)
      {
        assert source[1..][k] == source[k + 1];
      }
      FirstClaimStored(isValid, s, parse, next, source[1..], out, j - 1);
      CollectSound(isValid, s, parse, config, source[..1], next) by {
        assert source[..1][1..] == [];
      }
    }
  }

  /** The first source entry that claims the same name as entry `j0`. */
  lemma FirstClaimant(isValid: string -> bool, s: Settings, parse: Val -> Result<Val>, source: Entries, j0: nat)
    returns (j: nat)
    requires j0 < |source| && Claims(isValid, s, parse, source[j0])
    ensures j <= j0 && Claims(isValid, s, parse, source[j])
    ensures s.format(source[j].0) == s.format(source[j0].0)
    ensures forall k :: 0 <= k < j && Claims(isValid, s, parse, source[k]) ==>
              s.format(source[k].0) != s.format(source[j0].0)
  {
    j := 0;
    while !(Claims(isValid, s, parse, source[j]) && s.format(source[j].0) == s.format(source[j0].0))
      invariant j <= j0
      invariant forall k :: 0 <= k < j && Claims(isValid, s, parse, source[k]) ==>
                  s.format(source[k].0) != s.format(source[j0].0)
      decreases j0 - j
    {
      j := j + 1;
    }
  }

  /** First write wins, from an empty object: the entry under a name is the
      one stored for the first source entry claiming that name. */
  lemma FirstWriteWins(isValid: string -> bool, s: Settings, parse: Val -> Result<Val>,
                       source: Entries, out: Entries, j: nat)
    requires Collect(isValid, s, parse, [], source) == Ok(out)
    requires j < |source| && Claims(isValid, s, parse, source[j])
    requires forall k :: 0 <= k < j && Claims(isValid, s, parse, source[k]) ==>
               s.format(source[k].0) != s.format(source[j].0)
    ensures exists i :: 0 <= i < |out| && out[i] == Stored(s, parse, source[j])
    ensures forall i :: 0 <= i < |out| && out[i].0 == s.format(source[j].0) ==> out[i] == Stored(s, parse, source[j])
  {
    FirstClaimStored(isValid, s, parse, [], source, out, j);
    CollectDistinct(isValid, s, parse, [], source, out);
  }

  /** No source entry before `j` claims the name that entry `j` gives its key. */
  ghost predicate NoEarlierClaim(isValid: string -> bool, s: Settings, parse: Val -> Result<Val>,
                                 source: Entries, j: int)
    requires 0 <= j < |source|
  {
    forall k :: 0 <= k < j && Claims(isValid, s, parse, source[k]) ==> s.format(source[k].0) != s.format(source[j].0)
  }

  /** `stored` is what the loop writes for the first source entry that
      claims its name. */
  ghost predicate FirstWritten(isValid: string -> bool, s: Settings, parse: Val -> Result<Val>,
                               source: Entries, stored: (string, Val))
  {
    exists j :: 0 <= j < |source| && Produces(isValid, s, parse, source[j], stored) &&
                NoEarlierClaim(isValid, s, parse, source, j)
  }

  /** Every entry of the result is the one written for the first source
      entry that claims its name. */
  lemma CollectFirstWrites(isValid: string -> bool, s: Settings, parse: Val -> Result<Val>,
                           source: Entries, out: Entries)
    requires Collect(isValid, s, parse, [], source) == Ok(out)
    ensures forall i :: 0 <= i < |out| ==> FirstWritten(isValid, s, parse, source, out[i])
  {
    CollectSound(isValid, s, parse, [], source, out);
    forall i | 0 <= i < |out|
      ensures FirstWritten(isValid, s, parse, source, out[i])
    {
      var j0 :| 0 <= j0 < |source| && Produces(isValid, s, parse, source[j0], out[i]);
      var j := FirstClaimant(isValid, s, parse, source, j0);
      FirstWriteWins(isValid, s, parse, source, out, j);
      assert Produces(isValid, s, parse, source[j], out[i]);
    }
  }

  /** A later entry never overwrites: once a name is taken, the value of a
      source entry that formats to it is never looked at, so it cannot make
      the call throw. The same holds for keys the predicate rejects and for
      empty names. */
  lemma SkippedValueIrrelevant(isValid: string -> bool, s: Settings, parse: Val -> Result<Val>,
                               before: Entries, key: string, raw1: Val, raw2: Val, after: Entries)
    requires !isValid(key) || s.format(key) == "" ||
             (Collect(isValid, s, parse, [], before).Ok? &&
              s.format(key) in Names(Collect(isValid, s, parse, [], before).value))
    ensures Collect(isValid, s, parse, [], before + [(key, raw1)] + after) ==
            Collect(isValid, s, parse, [], before + [(key, raw2)] + after)
  {
    CollectAppend(isValid, s, parse, [], before, [(key, raw1)] + after);
    CollectAppend(isValid, s, parse, [], before, [(key, raw2)] + after);
    assert before + [(key, raw1)] + after == before + ([(key, raw1)] + after);
    assert before + [(key, raw2)] + after == before + ([(key, raw2)] + after);
    match Collect(isValid, s, parse, [], before)
    case Ok(mid) =>
      assert ([(key, raw1)] + after)[1..] == after;
      assert ([(key, raw2)] + after)[1..] == after;
    case Err(_) =>
  }

  /** Keys that all fail the predicate leave the object as it is, whatever
      their values. */
  lemma {:induction false} CollectNoneAccepted(isValid: string -> bool, s: Settings, parse: Val -> Result<Val>,
                                               config: Entries, source: Entries)
    requires forall k :: 0 <= k < |source| ==> !isValid(source[k].0)
    ensures Collect(isValid, s, parse, config, source) == Ok(config)
    decreases |source|
  {
    if source != [] {
      assert !isValid(source[0].0);
      assert forall k :: 0 <= k < |source[1..]| ==> source[1..][k] == source[k + 1];
      CollectNoneAccepted(isValid, s, parse, config, source[1..]);
    }
  }

  /** The converse: a key that passes, with a non-empty name not yet taken,
      whose value `parse` rejects, stops the whole loop with that error,
      whatever follows it. */
  lemma ParseErrorStops(isValid: string -> bool, s: Settings, parse: Val -> Result<Val>,
                        before: Entries, mid: Entries, key: string, raw: Val, after: Entries, e: Error)
    requires Collect(isValid, s, parse, [], before) == Ok(mid)
    requires isValid(key) && s.format(key) != "" && s.format(key) !in Names(mid)
    requires ValueOf(s, parse, raw) == Err(e)
    ensures Collect(isValid, s, parse, [], before + [(key, raw)] + after) == Err(e)
  {
    CollectAppend(isValid, s, parse, [], before, [(key, raw)] + after);
    assert before + [(key, raw)] + after == before + ([(key, raw)] + after);
    assert ([(key, raw)] + after)[0] == (key, raw);
    assert Visit(isValid, s, parse, mid, (key, raw)) == Err(e);
  }

  /** The only exception the loop raises is one from `parse`, under `json`,
      on the value of a key that passed and has a non-empty name. */
  lemma {:induction false} CollectErrorFromParse(isValid: string -> bool, s: Settings, parse: Val -> Result<Val>,
                                                 config: Entries, source: Entries, e: Error)
    requires Collect(isValid, s, parse, config, source) == Err(e)
    ensures s.json
    ensures exists j :: 0 <= j < |source| && isValid(source[j].0) && s.format(source[j].0) != "" &&
                        parse(source[j].1) == Err(e)
    decreases |source|
  {
    match Visit(isValid, s, parse, config, source[0])
    case Err(_) =>
      assert isValid(source[0].0) && s.format(source[0].0) != "" && parse(source[0].1) == Err(e);
    case Ok(next) =>
      CollectErrorFromParse(isValid, s, parse, next, source[1..], e);
      var j :| 0 <= j < |source[1..]| && isValid(source[1..][j].0) && s.format(source[1..][j].0) != "" &&
               parse(source[1..][j].1) == Err(e);
      assert source[1..][j] == source[j + 1];
  }

  /** The source entries a plain filter keeps: non-empty keys that pass,
      with a value that is not undefined, in source order. */
  function Kept(isValid: string -> bool, freeze: bool, source: Entries): Entries
  {
    if source == [] then []
    else
      var (key, raw) := source[0];
      (if key != "" && isValid(key) && !raw.Undef? then [(key, Store(freeze, raw))] else [])
      + Kept(isValid, freeze, source[1..])
  }

  predicate DistinctKeys(source: Entries)
  {
    forall i, j :: 0 <= i < j < |source| ==> source[i].0 != source[j].0
  }

  lemma {:induction false} CollectIdentityFrom(isValid: string -> bool, s: Settings, parse: Val -> Result<Val>,
                                               config: Entries, source: Entries)
    requires !s.json && forall key :: s.format(key) == key
    requires DistinctKeys(source)
    requires forall j :: 0 <= j < |source| ==> source[j].0 !in Names(config)
    ensures Collect(isValid, s, parse, config, source) == Ok(config + Kept(isValid, s.freeze, source))
    decreases |source|
  {
    if source != [] {
      var next := Visit(isValid, s, parse, config, source[0]).value;
      forall j | 0 <= j < |source[1..]|
        ensures source[1..][j].0 !in Names(next)
      {
        assert source[1..][j] == source[j + 1];
        if next != config {
          assert Names(next) == Names(config) + [source[0].0];
        }
      }
      assert Collect(isValid, s, parse, config, source) == Collect(isValid, s, parse, next, source[1..]);
      CollectIdentityFrom(isValid, s, parse, next, source[1..]);
      var (key, raw) := source[0];
      assert key !in Names(config) && s.format(key) == key;
      if key != "" && isValid(key) && !raw.Undef? {
        assert next == config + [(key, Store(s.freeze, raw))];
        assert Kept(isValid, s.freeze, source) == [(key, Store(s.freeze, raw))] + Kept(isValid, s.freeze, source[1..]);
        assert config + Kept(isValid, s.freeze, source) == next + Kept(isValid, s.freeze, source[1..]);
      } else {
        assert next == config;
        assert Kept(isValid, s.freeze, source) == Kept(isValid, s.freeze, source[1..]);
      }
    } else {
      assert config + Kept(isValid, s.freeze, source) == config;
    }
  }

  /** With `json` off and the identity format, the result is exactly the kept
      source entries, values unchanged (plain objects frozen under `freeze`),
      in source order. Such a filter never throws. */
  lemma CollectIdentity(isValid: string -> bool, s: Settings, parse: Val -> Result<Val>, source: Entries)
    requires !s.json && forall key :: s.format(key) == key
    requires DistinctKeys(source)
    ensures Collect(isValid, s, parse, [], source) == Ok(Kept(isValid, s.freeze, source))
  {
    CollectIdentityFrom(isValid, s, parse, [], source);
    assert [] + Kept(isValid, s.freeze, source) == Kept(isValid, s.freeze, source);
  }

  /** Under `freeze`, every stored plain object is frozen. Every other
      stored value (arrays among them), and every value when `freeze` is
      off, is stored exactly as computed from some source value. */
  lemma FreezeStored(isValid: string -> bool, s: Settings, parse: Val -> Result<Val>, source: Entries, out: Entries)
    requires Collect(isValid, s, parse, [], source) == Ok(out)
    ensures s.freeze ==> forall i :: 0 <= i < |out| && out[i].1.Obj? ==> out[i].1.frozen
    ensures forall i :: 0 <= i < |out| ==>
              exists j :: 0 <= j < |source| && ValueOf(s, parse, source[j].1).Ok? &&
                var v := ValueOf(s, parse, source[j].1).value;
                out[i].1 == (if s.freeze && v.Obj? then Obj(v.props, true) else v)
    ensures forall i :: 0 <= i < |out| && (!s.freeze || !out[i].1.Obj?) ==>
              exists j :: 0 <= j < |source| && ValueOf(s, parse, source[j].1) == Ok(out[i].1)
  {
    CollectSound(isValid, s, parse, [], source, out);
    forall i | 0 <= i < |out|
      ensures s.freeze && out[i].1.Obj? ==> out[i].1.frozen
      ensures exists j :: 0 <= j < |source| && ValueOf(s, parse, source[j].1).Ok? &&
                var v := ValueOf(s, parse, source[j].1).value;
                out[i].1 == (if s.freeze && v.Obj? then Obj(v.props, true) else v)
      ensures !s.freeze || !out[i].1.Obj? ==>
                exists j :: 0 <= j < |source| && ValueOf(s, parse, source[j].1) == Ok(out[i].1)
    {
      var j :| 0 <= j < |source| && Produces(isValid, s, parse, source[j], out[i]);
    }
  }
}
