/** What the Fetch standard's `Headers` does to a header value before the request
    leaves the client: leading and trailing HTTP whitespace (tab, line feed,
    carriage return, space) is removed, and a value that still holds a NUL, a
    line feed or a carriage return is refused with a `TypeError`. */
module FetchHeaders {
  import opened Wrappers

  predicate IsHttpWhitespace(c: char) {
    c == '\t' || c == '\n' || c == '\r' || c == ' '
  }

  /** A character no header value may hold. */
  predicate IsForbidden(c: char) {
    c == '\0' || c == '\n' || c == '\r'
  }

  /** The value with its leading HTTP whitespace removed. */
  function StripLeading(s: string): (r: string)
    ensures |r| <= |s| && r == s[|s| - |r|..]
    ensures forall j :: 0 <= j < |s| - |r| ==> IsHttpWhitespace(s[j])
    ensures |r| > 0 ==> !IsHttpWhitespace(r[0])
    decreases |s|
  {
    if |s| > 0 && IsHttpWhitespace(s[0]) then
      var r := StripLeading(s[1..]);
      assert forall j :: 0 < j < |s| - |r| ==> s[j] == s[1..][j - 1];
      r
    else s
  }

  /** The value with its trailing HTTP whitespace removed. */
  function StripTrailing(s: string): (r: string)
    ensures |r| <= |s| && r == s[..|r|]
    ensures forall j :: |r| <= j < |s| ==> IsHttpWhitespace(s[j])
    ensures |r| > 0 ==> !IsHttpWhitespace(r[|r| - 1])
    decreases |s|
  {
    if |s| > 0 && IsHttpWhitespace(s[|s| - 1]) then
      var r := StripTrailing(s[..|s| - 1]);
      assert forall j :: |r| <= j < |s| - 1 ==> s[j] == s[..|s| - 1][j];
      r
    else s
  }

  /** A value `Headers` sends unchanged: no HTTP whitespace at either end and no
      forbidden character. */
  predicate IsHeaderValue(v: string) {
    && (|v| > 0 ==> !IsHttpWhitespace(v[0]) && !IsHttpWhitespace(v[|v| - 1]))
    && forall i :: 0 <= i < |v| ==> !IsForbidden(v[i])
  }

  /** The value that goes on the wire, or `None` when `Headers` throws. */
  function Normalise(v: string): (r: Option<string>)
    ensures r.Some? ==> IsHeaderValue(r.value)
  {
    var n := StripTrailing(StripLeading(v));
    StripTrailingKeepsStart(StripLeading(v));
    if forall i :: 0 <= i < |n| ==> !IsForbidden(n[i]) then Some(n) else None
  }

  /** Stripping the trailing whitespace of a string without leading whitespace
      leaves it without leading whitespace. */
  lemma StripTrailingKeepsStart(s: string)
    requires |s| > 0 ==> !IsHttpWhitespace(s[0])
    ensures var r := StripTrailing(s); |r| > 0 ==> !IsHttpWhitespace(r[0])
  {
    var r := StripTrailing(s);
    if |r| > 0 {
      assert r[0] == s[0];
    }
  }

  /** `Headers` sends a value unchanged exactly when it already is a header value;
      any other value is changed or refused. */
  lemma NormaliseFixesExactlyHeaderValues(v: string)
    ensures Normalise(v) == Some(v) <==> IsHeaderValue(v)
  {
    if IsHeaderValue(v) {
      assert StripLeading(v) == v;
      assert StripTrailing(v) == v;
    }
  }

  /** Whitespace after a header value is cut away: `Bearer abc` followed by a
      tab arrives as `Bearer abc`. */
  lemma TrailingWhitespaceIsCut(v: string, c: char)
    requires IsHeaderValue(v) && IsHttpWhitespace(c)
    ensures Normalise(v + [c]) == Some(v)
  {
    var w := v + [c];
    if |v| > 0 {
      assert w[0] == v[0];
      assert StripLeading(w) == w;
    }
    assert w[..|w| - 1] == v;
    assert StripTrailing(w) == StripTrailing(v);
    NormaliseFixesExactlyHeaderValues(v);
  }

  /** A NUL, line feed or carriage return between two non-blank ends makes
      `Headers` throw. */
  lemma InnerForbiddenThrows(a: string, c: char, b: string)
    requires |a| > 0 && !IsHttpWhitespace(a[0]) && |b| > 0 && !IsHttpWhitespace(b[|b| - 1])
    requires IsForbidden(c)
    ensures Normalise(a + [c] + b) == None
  {
    var v := a + [c] + b;
    assert v[0] == a[0] && v[|v| - 1] == b[|b| - 1];
    assert StripLeading(v) == v;
    assert StripTrailing(v) == v;
    assert v[|a|] == c;
  }
}
