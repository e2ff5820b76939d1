/** The java.lang.String and java.lang.Character operations the code relies on. */
module JavaString {

  /** Character.isWhitespace: Unicode space, line and paragraph separators other than
      the non-breaking ones, plus the ASCII controls TAB..CR and FS..US. */
  predicate IsWhitespace(c: char) {
    || ('\t' <= c <= '\r')
    || ('\U{001C}' <= c <= '\U{001F}')
    || c == ' '
    || c == '\U{1680}'
    || ('\U{2000}' <= c <= '\U{2006}')
    || ('\U{2008}' <= c <= '\U{200A}')
    || c == '\U{2028}' || c == '\U{2029}' || c == '\U{205F}' || c == '\U{3000}'
  }

  /** String.isBlank: empty or whitespace only. */
  predicate IsBlank(s: string) {
    forall i :: 0 <= i < |s| ==> IsWhitespace(s[i])
  }

  /** String.stripLeading. */
  function StripLeading(s: string): (r: string)
    ensures |r| <= |s| && r == s[|s| - |r|..]
    ensures forall i :: 0 <= i < |s| - |r| ==> IsWhitespace(s[i])
    ensures r == [] || !IsWhitespace(r[0])
  {
    if s != [] && IsWhitespace(s[0]) then StripLeading(s[1..]) else s
  }

  /** String.stripTrailing. */
  function StripTrailing(s: string): (r: string)
    ensures |r| <= |s| && r == s[..|r|]
    ensures forall i :: |r| <= i < |s| ==> IsWhitespace(s[i])
    ensures r == [] || !IsWhitespace(r[|r| - 1])
  {
    if s != [] && IsWhitespace(s[|s| - 1]) then StripTrailing(s[..|s| - 1]) else s
  }

  /** No whitespace at either end: what strip leaves. */
  predicate IsStripped(s: string) {
    s == [] || (!IsWhitespace(s[0]) && !IsWhitespace(s[|s| - 1]))
  }

  /** String.strip: both ends. */
  function Strip(s: string): (r: string)
    ensures r == [] || (!IsWhitespace(r[0]) && !IsWhitespace(r[|r| - 1]))
    ensures r == [] <==> IsBlank(s)
    ensures TrimmedFrom(s, r)
  {
    var lead := StripLeading(s);
    var r := StripTrailing(lead);
    StripInfix(s, lead, r);
    r
  }

  /** What stripLeading and then stripTrailing leave: a slice of the input with only
      whitespace cut off on either side, with no whitespace at its ends, and empty exactly
      when the input is blank. */
  lemma StripInfix(s: string, lead: string, r: string)
    requires |lead| <= |s| && lead == s[|s| - |lead|..]
    requires forall k :: 0 <= k < |s| - |lead| ==> IsWhitespace(s[k])
    requires |r| <= |lead| && r == lead[..|r|]
    requires forall k :: |r| <= k < |lead| ==> IsWhitespace(lead[k])
    requires lead == [] || !IsWhitespace(lead[0])
    requires r == [] || !IsWhitespace(r[|r| - 1])
    ensures r == [] || (!IsWhitespace(r[0]) && !IsWhitespace(r[|r| - 1]))
    ensures r == [] <==> IsBlank(s)
    ensures TrimmedFrom(s, r)
  {
    assert r != [] ==> r[0] == lead[0];
    assert r == [] ==> lead == [] by {
      if lead != [] { assert !IsWhitespace(lead[0]); }
    }
    var i, j := |s| - |lead|, |s| - |lead| + |r|;
    forall k | j <= k < |s| ensures IsWhitespace(s[k]) {
      assert s[k] == lead[k - i];
    }
    assert r == s[i..j] && WhitespaceOutside(s, i, j);
  }

  /** `r` is a slice of `s` with only whitespace cut off on either side. */
  predicate TrimmedFrom(s: string, r: string) {
    exists i, j :: 0 <= i <= j <= |s| && r == s[i..j] && WhitespaceOutside(s, i, j)
  }

  /** Everything of `s` before index i and from index j on is whitespace. */
  predicate WhitespaceOutside(s: string, i: nat, j: nat)
    requires i <= j <= |s|
  {
    && (forall k :: 0 <= k < i ==> IsWhitespace(s[k]))
    && (forall k :: j <= k < |s| ==> IsWhitespace(s[k]))
  }

  /** String.lastIndexOf(char): -1 when absent. */
  function LastIndexOf(s: string, c: char): (r: int)
    ensures -1 <= r < |s|
    ensures r >= 0 ==> s[r] == c
    ensures forall k :: r < k < |s| ==> s[k] != c
  {
    if s == [] then -1
    else if s[|s| - 1] == c then |s| - 1
    else LastIndexOf(s[..|s| - 1], c)
  }

  /** Character.toLowerCase, for the ASCII letters only. */
  function LowerChar(c: char): (r: char)
    ensures 'A' <= c <= 'Z' ==> r as int == c as int - 'A' as int + 'a' as int
    ensures !('A' <= c <= 'Z') ==> r == c
  {
    if 'A' <= c <= 'Z' then (c as int + 32) as char else c
  }

  /** String.toLowerCase, for the ASCII letters only. */
  function ToLower(s: string): (r: string)
    ensures |r| == |s|
    ensures forall i {:trigger LowerChar(s[i])} :: 0 <= i < |s| ==> r[i] == LowerChar(s[i])
  {
    seq(|s|, i requires 0 <= i < |s| => LowerChar(s[i]))
  }

  /** String.equalsIgnoreCase, for the ASCII letters only. */
  predicate EqualsIgnoreCase(a: string, b: string) {
    ToLower(a) == ToLower(b)
  }

  predicate StartsWith(s: string, prefix: string) {
    |prefix| <= |s| && s[..|prefix|] == prefix
  }

  /** Collectors.joining(sep): the items in order with sep between neighbours. */
  function Join(items: seq<string>, sep: string): (r: string)
    ensures items == [] ==> r == ""
    ensures |items| == 1 ==> r == items[0]
  {
    if items == [] then ""
    else if |items| == 1 then items[0]
    else Join(items[..|items| - 1], sep) + sep + items[|items| - 1]
  }

  /** A joined list starts with its first item and ends with its last. */
  lemma {:induction false} JoinEnds(items: seq<string>, sep: string)
    requires items != []
    ensures var r, first, last := Join(items, sep), items[0], items[|items| - 1];
      && |first| <= |r| && r[..|first|] == first
      && |last| <= |r| && r[|r| - |last|..] == last
  {
    if |items| > 1 {
      var init := items[..|items| - 1];
      JoinEnds(init, sep);
      assert init[0] == items[0];
      var j := Join(init, sep);
      assert (j + sep + items[|items| - 1])[..|items[0]|] == j[..|items[0]|];
    }
  }

  /** Adding an item to a non-empty list adds the separator and the item at the end. */
  lemma JoinSnoc(items: seq<string>, x: string, sep: string)
    requires items != []
    ensures Join(items + [x], sep) == Join(items, sep) + sep + x
  {
    assert (items + [x])[..|items|] == items;
  }
}
