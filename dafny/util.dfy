/** Util.java: string argument checks. A Java null string is `None`. */
module Util {
  import opened Base
  import opened JavaString

  /** Util.requireNonBlank: the argument itself, or an IllegalArgumentException naming it. */
  function RequireNonBlank(strParam: Option<string>, strParamName: string): (r: Result<string>)
    ensures r.Success? <==> IsNonBlank(strParam)
    ensures r.Success? ==> strParam == Some(r.value)
    ensures r.Failure? ==> r.error == IllegalArgument(BlankMessage(strParamName))
  {
    if strParam.None? || IsBlank(strParam.value) then
      Failure(IllegalArgument(BlankMessage(strParamName)))
    else
      Success(strParam.value)
  }

  /** The exception message of requireNonBlank. */
  function BlankMessage(strParamName: string): string {
    "Parameter " + strParamName + " must not be blank"
  }

  /** The message names the parameter: different parameters give different messages. */
  lemma BlankMessageInjective(a: string, b: string)
    ensures BlankMessage(a) == BlankMessage(b) <==> a == b
  {
    if BlankMessage(a) == BlankMessage(b) {
      var m := BlankMessage(a);
      assert |a| == |b| == |m| - 28;
      assert a == m[10..|m| - 18];
      assert b == BlankMessage(b)[10..|m| - 18];
    }
  }

  /** Util.isNonBlank. */
  predicate IsNonBlank(str: Option<string>)
    ensures IsNonBlank(str) <==>
      str.Some? && exists i :: 0 <= i < |str.value| && !IsWhitespace(str.value[i])
  {
    !(str.None? || IsBlank(str.value))
  }

  /** Util.nullToEmpty: "" for null, otherwise the stripped string. */
  function NullToEmpty(str: Option<string>): (r: string)
    ensures str.None? ==> r == ""
    ensures str.Some? ==> TrimmedFrom(str.value, r)
    ensures r == [] || (!IsWhitespace(r[0]) && !IsWhitespace(r[|r| - 1]))
  {
    if str.None? then "" else Strip(str.value)
  }

  /** A string with no whitespace at either end is its own strip. */
  lemma StripOfStripped(s: string)
    requires s == [] || (!IsWhitespace(s[0]) && !IsWhitespace(s[|s| - 1]))
    ensures Strip(s) == s
  {
    if s != [] {
      assert StripLeading(s) == s;
      assert StripTrailing(s) == s;
    }
  }

  /** nullToEmpty applied twice is nullToEmpty applied once. */
  lemma NullToEmptyIdempotent(str: Option<string>)
    ensures NullToEmpty(Some(NullToEmpty(str))) == NullToEmpty(str)
  {
    var once := NullToEmpty(str);
    StripOfStripped(once);
    assert NullToEmpty(Some(once)) == Strip(once);
  }

  /** isNonBlank(s) holds exactly when nullToEmpty(s) is not empty. */
  lemma NonBlankIffNonEmpty(str: Option<string>)
    ensures IsNonBlank(str) <==> NullToEmpty(str) != ""
  {
  }

  lemma Examples()
    ensures !IsNonBlank(None) && !IsNonBlank(Some("")) && !IsNonBlank(Some(" \t\n"))
    ensures IsNonBlank(Some(" a "))
    ensures NullToEmpty(None) == ""
    ensures RequireNonBlank(Some("x"), "p") == Success("x")
  {
    assert !IsBlank(" a ") by { assert !IsWhitespace(" a "[1]); }
    assert !IsBlank("x") by { assert !IsWhitespace("x"[0]); }
  }
}
