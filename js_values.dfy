/**
 * JavaScript values as the filter sees them, the errors it raises, and the
 * whitespace trimming that its JSON fallback rule relies on.
 */
module JsValues {

  /** A JavaScript value, tagged by the type tests the filter performs on it.
      `Obj` is a plain object; `frozen` records whether Object.freeze has been
      applied to it. `Other` stands for every remaining value (functions,
      regular expressions, symbols, class instances). */
  datatype Val =
    | Str(s: string)
    | Num(x: real)
    | Date(time: int)
    | Bool(b: bool)
    | Null
    | Undef
    | Arr(items: seq<Val>)
    | Obj(props: seq<(string, Val)>, frozen: bool)
    | Other

  /** The two kinds of exception the filter lets escape. */
  datatype Error = TypeError(message: string) | SyntaxError(message: string)

  const InvalidEnvironment: string := "Invalid environment"
  const InvalidValidationFunction: string := "Invalid validation function"

  /** A value or the exception thrown while computing it. */
  datatype Result<+T> = Ok(value: T) | Err(error: Error) {
    predicate IsFailure() { Err? }

    function PropagateFailure<U>(): Result<U>
      requires Err?
    {
      Err(error)
    }

    function Extract(): T
      requires Ok?
    {
      value
    }
  }

  datatype Option<+T> = None | Some(value: T)

  /** The host's JSON.parse: a value, or the SyntaxError the engine throws. */
  type JsonParse = string -> Result<Val>

  /** Object.freeze as the filter uses it: plain objects become frozen
      (shallowly); every other value, arrays included, is left as it is. */
  function FreezePlain(v: Val): Val
  {
    if v.Obj? then v.(frozen := true) else v
  }

  /** WhiteSpace and LineTerminator code points, which String.prototype.trim removes. */
  predicate IsJsSpace(c: char)
  {
    || c == '\t' || c == '\n' || c == '\U{000B}' || c == '\U{000C}' || c == '\r'
    || c == ' ' || c == '\U{00A0}' || c == '\U{1680}'
    || ('\U{2000}' <= c <= '\U{200A}')
    || c == '\U{2028}' || c == '\U{2029}' || c == '\U{202F}' || c == '\U{205F}'
    || c == '\U{3000}' || c == '\U{FEFF}'
  }

  /** The string with its leading whitespace removed. */
  function TrimStart(s: string): (r: string)
    ensures |r| <= |s| && r == s[|s| - |r|..]
    ensures forall j :: 0 <= j < |s| - |r| ==> IsJsSpace(s[j])
    ensures r == [] || !IsJsSpace(r[0])
  {
    if |s| > 0 && IsJsSpace(s[0]) then TrimStart(s[1..]) else s
  }

  /** The string with its trailing whitespace removed. */
  function TrimEnd(s: string): (r: string)
    ensures |r| <= |s| && r == s[..|r|]
    ensures forall j :: |r| <= j < |s| ==> IsJsSpace(s[j])
    ensures r == [] || !IsJsSpace(r[|r| - 1])
  {
    if |s| > 0 && IsJsSpace(s[|s| - 1]) then TrimEnd(s[..|s| - 1]) else s
  }

  /** String.prototype.trim. */
  function Trim(s: string): string
  {
    TrimEnd(TrimStart(s))
  }

  /** `value.trim().substring(0, 1)`: the first character left after
      trimming, or the empty string. */
  function FirstOfTrimmed(s: string): string
  {
    var t := Trim(s);
    if |t| == 0 then t else t[..1]
  }

  /** The JSON fallback's test: after trimming, the text opens with `{` or `[`. */
  predicate LooksStructured(s: string)
  {
    var first := FirstOfTrimmed(s);
    first == "{" || first == "["
  }

  /** The same test stated without trimming: the first character that is not
      whitespace is `{` or `[`. */
  ghost predicate OpensStructure(s: string)
  {
    exists i :: 0 <= i < |s| && (s[i] == '{' || s[i] == '[') && forall j :: 0 <= j < i ==> IsJsSpace(s[j])
  }

  /** Trimming the end of a string that starts with a non-whitespace
      character keeps that character first. */
  lemma TrimEndKeepsFirst(t: string)
    requires |t| > 0 && !IsJsSpace(t[0])
    ensures |TrimEnd(t)| > 0 && TrimEnd(t)[0] == t[0]
  {
  }

  /** After trimming, the first character is the first non-whitespace
      character of the string, if any. */
  lemma FirstOfTrimmedIsFirstNonSpace(s: string)
    ensures FirstOfTrimmed(s) == if |TrimStart(s)| == 0 then "" else [TrimStart(s)[0]]
  {
    var ts := TrimStart(s);
    if |ts| > 0 {
      TrimEndKeepsFirst(ts);
      assert TrimEnd(ts)[..1] == [ts[0]];
    }
  }

  /** The first non-whitespace character of `s` is at index `i` exactly
      when TrimStart removes `i` characters. */
  lemma FirstNonSpaceAt(s: string, i: nat)
    requires i < |s| && !IsJsSpace(s[i]) && forall j :: 0 <= j < i ==> IsJsSpace(s[j])
    ensures |TrimStart(s)| == |s| - i
  {
    var k := |s| - |TrimStart(s)|;
    assert i >= k;
    assert 0 < |TrimStart(s)| && TrimStart(s)[0] == s[k];
    assert !IsJsSpace(s[k]);
  }

  lemma LooksStructuredOpens(s: string)
    requires LooksStructured(s)
    ensures OpensStructure(s)
  {
    var k := |s| - |TrimStart(s)|;
    FirstOfTrimmedIsFirstNonSpace(s);
    assert |TrimStart(s)| > 0 && s[k] == TrimStart(s)[0];
    assert (s[k] == '{' || s[k] == '[') && forall j :: 0 <= j < k ==> IsJsSpace(s[j]);
  }

  lemma OpensLooksStructured(s: string)
    requires OpensStructure(s)
    ensures LooksStructured(s)
  {
    var i :| 0 <= i < |s| && (s[i] == '{' || s[i] == '[') && forall j :: 0 <= j < i ==> IsJsSpace(s[j]);
    FirstNonSpaceAt(s, i);
    FirstOfTrimmedIsFirstNonSpace(s);
    assert TrimStart(s)[0] == s[i];
  }

  /** Trimming before taking the first character agrees with looking for the
      first non-whitespace character. */
  lemma LooksStructuredOpensStructure(s: string)
    ensures LooksStructured(s) <==> OpensStructure(s)
  {
    if LooksStructured(s) {
      LooksStructuredOpens(s);
    }
    if OpensStructure(s) {
      OpensLooksStructured(s);
    }
  }
}
