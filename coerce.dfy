/**
 * Conversions of configuration values: the boolean token sets of
 * `_coerce_bool`, the `bool` and `int` coercions accepted by
 * `ConfigView.get(..., coerce=...)`, and the typing of environment variable
 * values by `EnvSource` (integer, then boolean, else the string itself).
 */
module Coerce {

  import opened Wrappers
  import opened Tree
  import Text

  const TruthyTokens: set<string> := {"1", "true", "yes", "on"}
  const FalsyTokens: set<string> := {"0", "false", "no", "off"}

  /** `_coerce_bool` on a string: the token sets compared without regard to ASCII case; any other text is a `ValueError`. */
  function CoerceBool(s: string): (r: Result<bool>)
    ensures r == Ok(true) <==> Text.Lower(s) in TruthyTokens
    ensures r == Ok(false) <==> Text.Lower(s) in FalsyTokens
    ensures r.Err? ==> r.error == BadValue
  {
    var t := Text.Lower(s);
    if t in TruthyTokens then Ok(true)
    else if t in FalsyTokens then Ok(false)
    else Err(BadValue)
  }

  /** The coercions a caller of `get` can ask for. */
  datatype Coercion = ToBool | ToInt

  /** `coerce(value)`: a failed conversion is an error the caller turns into its default. */
  function Apply(c: Coercion, v: Value): (r: Result<Value>)
    ensures r.Ok? ==> (c == ToBool ==> r.value.Bool?) && (c == ToInt ==> r.value.Int?)
    ensures r.Err? ==> r.error == BadValue
    ensures v.Bool? || v.Int? ==> r.Ok?
    ensures v.Null? || v.Missing? || v.List? || v.Map? ==> r.Err?
  {
    match c
    case ToBool =>
      (match v
       case Bool(b) => Ok(v)
       case Int(i) => Ok(Bool(i != 0))
       case Str(s) => (match CoerceBool(s) case Ok(b) => Ok(Bool(b)) case Err(e) => Err(e))
       case _ => Err(BadValue))
    case ToInt =>
      match v
      case Int(_) => Ok(v)
      case Bool(b) => Ok(Int(if b then 1 else 0))
      case Str(s) => (match Text.ParseInt(s) case Some(n) => Ok(Int(n)) case None => Err(BadValue))
      case _ => Err(BadValue)
  }

  /** The type `EnvSource` gives a variable's text: an integer when it reads as one, else a boolean token, else the text. */
  function EnvValue(s: string): (r: Value)
    ensures r.Int? || r.Bool? || r == Str(s)
    ensures r.Int? <==> Text.IsIntText(s)
    ensures Text.IsIntText(s) ==> r == Int(Text.ParseInt(s).value)
    ensures r.Bool? <==> !Text.IsIntText(s) && Text.Lower(s) in TruthyTokens + FalsyTokens
    ensures r.Bool? ==> r.b == (Text.Lower(s) in TruthyTokens)
  {
    match Text.ParseInt(s)
    case Some(n) => Int(n)
    case None =>
      match CoerceBool(s)
      case Ok(b) => Bool(b)
      case Err(_) => Str(s)
  }

  // ---------------------------------------------------------------------
  // Properties
  // ---------------------------------------------------------------------

  lemma LowerUpper(s: string)
    ensures Text.Lower(Text.Upper(s)) == Text.Lower(s)
  {
    forall i | 0 <= i < |s| ensures Text.Lower(Text.Upper(s))[i] == Text.Lower(s)[i] {
      var c := s[i];
      if 'a' <= c <= 'z' {
        assert Text.UpperChar(c) as int == c as int - 32;
      }
    }
  }

  /** Boolean tokens are read without regard to case: upper-casing the text changes nothing. */
  lemma CoerceBoolIgnoresCase(s: string)
    ensures CoerceBool(Text.Upper(s)) == CoerceBool(s)
  {
    LowerUpper(s);
  }

  /** Python's own rendering of a boolean reads back as that boolean. */
  lemma CoerceBoolReadsPythonBool(b: bool)
    ensures CoerceBool(if b then "True" else "False") == Ok(b)
  {
    assert Text.Lower("True") == "true";
    assert Text.Lower("False") == "false";
  }

  /** An environment variable holding `str(n)` loads as the integer `n`. */
  lemma EnvValueReadsInt(n: int)
    ensures EnvValue(Text.FormatInt(n)) == Int(n)
  {
    Text.ParseFormatInt(n);
  }

  /** `get(..., coerce=int)` reads back `str(n)` as `n`. */
  lemma ApplyIntReadsInt(n: int)
    ensures Apply(ToInt, Str(Text.FormatInt(n))) == Ok(Int(n))
  {
    Text.ParseFormatInt(n);
  }

  // ---------------------------------------------------------------------
  // The behaviour the test suite pins down
  // ---------------------------------------------------------------------

  /** `_coerce_bool("on") is True`, `_coerce_bool("off") is False`, `_coerce_bool("maybe")` raises `ValueError`. */
  lemma CoerceBoolExamples()
    ensures CoerceBool("on") == Ok(true)
    ensures CoerceBool("off") == Ok(false)
    ensures CoerceBool("maybe") == Err(BadValue)
    ensures Apply(ToBool, Str("true")) == Ok(Bool(true))
  {
    assert Text.Lower("true") == "true";
    assert Text.Lower("on") == "on";
    assert Text.Lower("off") == "off";
    assert Text.Lower("maybe") == "maybe";
  }

  /** `EnvSource` types `"10"` as the integer 10, keeps `"abc"` as a string and reads `"on"` as true. */
  lemma EnvValueExamples()
    ensures EnvValue("10") == Int(10)
    ensures EnvValue("abc") == Str("abc")
    ensures EnvValue("on") == Bool(true)
  {
    assert Text.FormatInt(10) == "10";
    EnvValueReadsInt(10);
    assert Text.ParseInt("abc") == None by {
      assert "abc"[0] == 'a' && !Text.IsDigit('a');
    }
    assert Text.ParseInt("on") == None by {
      assert "on"[0] == 'o' && !Text.IsDigit('o');
    }
    assert Text.Lower("abc") == "abc";
    assert Text.Lower("on") == "on";
  }

  /** `get("v", default=0, coerce=int)` on `"abc"`: the conversion fails. */
  lemma IntCoercionFailsOnText()
    ensures Apply(ToInt, Str("abc")) == Err(BadValue)
  {
    assert !Text.IsDigit('a');
  }

  // ---------------------------------------------------------------------
  // Proof helpers
  // ---------------------------------------------------------------------

  // `Apply` on a text unfolded to the independent contracts of `CoerceBool` and
  // `Text.ParseInt`: which texts the `bool` and `int` coercions accept.

  /** `get(..., coerce=bool)` on a text succeeds exactly for the boolean tokens, giving whether the token is truthy. */
  lemma ApplyBoolOnText(s: string)
    ensures Apply(ToBool, Str(s)).Ok? <==> Text.Lower(s) in TruthyTokens + FalsyTokens
    ensures Apply(ToBool, Str(s)).Ok? ==> Apply(ToBool, Str(s)).value == Bool(Text.Lower(s) in TruthyTokens)
  {
  }

  /** `get(..., coerce=int)` on a text reads exactly what `int(...)` reads. */
  lemma ApplyIntOnText(s: string, n: int)
    ensures Apply(ToInt, Str(s)) == Ok(Int(n)) <==> Text.ParseInt(s) == Some(n)
  {
  }
}
