/** The JavaScript string operations the core relies on: `indexOf`/`includes`,
    `split` and `join` with a string separator, `trim`, decimal digits and the
    decimal form of a non-negative integer. */
module Text {
  import opened Wrappers

  /** ECMAScript WhiteSpace and LineTerminator code points: what `trim` strips. */
  predicate IsWhitespace(c: char) {
    || c == '\t' || c == '\n' || c == '\U{000B}' || c == '\U{000C}' || c == '\r' || c == ' '
    || c == '\U{00A0}' || c == '\U{1680}' || ('\U{2000}' <= c <= '\U{200A}')
    || c == '\U{2028}' || c == '\U{2029}' || c == '\U{202F}' || c == '\U{205F}'
    || c == '\U{3000}' || c == '\U{FEFF}'
  }

  /** `s` has no whitespace at either end. */
  predicate IsTrimmed(s: string) {
    s == [] || (!IsWhitespace(s[0]) && !IsWhitespace(s[|s| - 1]))
  }

  function TrimStart(s: string): (r: string)
    ensures |r| <= |s| && r == s[|s| - |r|..]
    ensures forall i :: 0 <= i < |s| - |r| ==> IsWhitespace(s[i])
    ensures r == [] || !IsWhitespace(r[0])
  {
    if |s| > 0 && IsWhitespace(s[0]) then TrimStart(s[1..]) else s
  }

  function TrimEnd(s: string): (r: string)
    ensures |r| <= |s| && r == s[..|r|]
    ensures forall i :: |r| <= i < |s| ==> IsWhitespace(s[i])
    ensures r == [] || !IsWhitespace(r[|r| - 1])
  {
    if |s| > 0 && IsWhitespace(s[|s| - 1]) then TrimEnd(s[..|s| - 1]) else s
  }

  /** `r` is the infix of `s` starting at `i`, and all of `s` outside it is whitespace. */
  predicate InfixAmidWhitespace(s: string, r: string, i: nat) {
    && i + |r| <= |s| && r == s[i..i + |r|]
    && (forall k :: 0 <= k < i ==> IsWhitespace(s[k]))
    && (forall k :: i + |r| <= k < |s| ==> IsWhitespace(s[k]))
  }

  /** `String.prototype.trim`: an infix of `s` with no whitespace at either end,
      everything cut away being whitespace. */
  function Trim(s: string): (r: string)
    ensures IsTrimmed(r)
    ensures exists i: nat :: InfixAmidWhitespace(s, r, i)
  {
    var e := TrimEnd(s);
    var r := TrimStart(e);
    assert r == s[|e| - |r|..|e|];
    assert InfixAmidWhitespace(s, r, |e| - |r|);
    r
  }

  /** Trimming a string that already has no surrounding whitespace changes nothing. */
  lemma TrimOfTrimmed(s: string)
    requires IsTrimmed(s)
    ensures Trim(s) == s
  {
  }

  /** `trim` is idempotent. */
  lemma TrimIdempotent(s: string)
    ensures Trim(Trim(s)) == Trim(s)
  {
    TrimOfTrimmed(Trim(s));
  }

  /** Leading whitespace does not survive `trim`. */
  lemma TrimSkipsLeadingWhitespace(c: char, s: string)
    requires IsWhitespace(c)
    ensures Trim([c] + s) == Trim(s)
  {
    var t := [c] + s;
    assert t[1..] == s;
    if |s| > 0 && IsWhitespace(s[|s| - 1]) {
      assert t[..|t| - 1] == [c] + s[..|s| - 1];
      TrimSkipsLeadingWhitespace(c, s[..|s| - 1]);
    }
  }

  // ---------------------------------------------------------------------------
  // Searching, splitting and joining

  /** `sep` occurs in `s` starting at index `i`. */
  predicate OccursAt(s: string, sep: string, i: nat) {
    i + |sep| <= |s| && s[i..i + |sep|] == sep
  }

  /** The first occurrence of `sep` in `s` at or after `from`. */
  function FindFrom(s: string, sep: string, from: nat): (r: Option<nat>)
    requires from <= |s|
    ensures r.Some? ==> from <= r.value && OccursAt(s, sep, r.value)
    ensures r.Some? ==> forall k :: from <= k < r.value ==> !OccursAt(s, sep, k)
    ensures r.None? ==> forall k :: from <= k <= |s| ==> !OccursAt(s, sep, k)
    decreases |s| - from
  {
    if OccursAt(s, sep, from) then Some(from)
    else if from == |s| then None
    else FindFrom(s, sep, from + 1)
  }

  /** `s.indexOf(sep)`, with `None` for -1. */
  function IndexOf(s: string, sep: string): Option<nat> {
    FindFrom(s, sep, 0)
  }

  /** `s.includes(sep)`. */
  predicate Contains(s: string, sep: string) {
    IndexOf(s, sep).Some?
  }

  /** `includes` holds exactly when the separator occurs somewhere. */
  lemma ContainsIff(s: string, sep: string)
    ensures Contains(s, sep) <==> exists k: nat :: OccursAt(s, sep, k)
  {
  }

  /** An occurrence with none before it is the one `indexOf` reports. */
  lemma IndexOfIsFirst(s: string, sep: string, j: nat)
    requires OccursAt(s, sep, j)
    requires forall k :: 0 <= k < j ==> !OccursAt(s, sep, k)
    ensures IndexOf(s, sep) == Some(j)
  {
  }

  /** Text in which the separator's first character never appears cannot
      contain the separator. */
  lemma AbsentLeadCharNotContained(s: string, sep: string)
    requires |sep| > 0 && forall i :: 0 <= i < |s| ==> s[i] != sep[0]
    ensures !Contains(s, sep)
  {
    forall k: nat | k <= |s| ensures !OccursAt(s, sep, k) {
      if k + |sep| <= |s| {
        assert s[k..k + |sep|][0] == s[k];
      }
    }
    ContainsIff(s, sep);
  }

  /** `s.split(sep)` for a non-empty separator: the pieces between occurrences. */
  function Split(s: string, sep: string): (parts: seq<string>)
    requires |sep| > 0
    ensures |parts| >= 1
    ensures |parts| > 1 <==> Contains(s, sep)
    decreases |s|
  {
    match IndexOf(s, sep)
    case None => [s]
    case Some(i) => [s[..i]] + Split(s[i + |sep|..], sep)
  }

  /** The first piece of a split is the text before the first occurrence, or the
      whole string when there is none. */
  lemma SplitFirstPiece(s: string, sep: string)
    requires |sep| > 0
    ensures Split(s, sep)[0] == match IndexOf(s, sep)
                                case None => s
                                case Some(i) => s[..i]
  {
  }

  /** The second piece of a split, when there is one, is the text between the
      first and the second occurrence, or the rest of the string after the first
      occurrence when there is no second one. */
  lemma SplitSecondPiece(s: string, sep: string)
    requires |sep| > 0 && Contains(s, sep)
    ensures var i := IndexOf(s, sep).value;
            var rest := s[i + |sep|..];
            Split(s, sep)[1] == match IndexOf(rest, sep)
                                case None => rest
                                case Some(j) => rest[..j]
  {
    var i := IndexOf(s, sep).value;
    assert Split(s, sep) == [s[..i]] + Split(s[i + |sep|..], sep);
    SplitFirstPiece(s[i + |sep|..], sep);
  }

  /** `parts.join(sep)`. */
  function Join(parts: seq<string>, sep: string): string {
    if |parts| == 0 then ""
    else if |parts| == 1 then parts[0]
    else parts[0] + sep + Join(parts[1..], sep)
  }

  /** Joining the pieces of a split with the same separator gives back the string. */
  lemma {:induction false} JoinSplit(s: string, sep: string)
    requires |sep| > 0
    ensures Join(Split(s, sep), sep) == s
    decreases |s|
  {
    match IndexOf(s, sep)
    case None =>
    case Some(i) =>
      var rest := Split(s[i + |sep|..], sep);
      assert Split(s, sep) == [s[..i]] + rest;
      assert ([s[..i]] + rest)[1..] == rest;
      JoinSplit(s[i + |sep|..], sep);
      assert s == s[..i] + s[i..i + |sep|] + s[i + |sep|..];
  }

  /** The text before the first occurrence does not contain the separator. */
  lemma PrefixBeforeFirstOccurrence(s: string, sep: string, i: nat)
    requires |sep| > 0 && IndexOf(s, sep) == Some(i)
    ensures !Contains(s[..i], sep)
  {
    var head := s[..i];
    forall k: nat | k <= |head| ensures !OccursAt(head, sep, k) {
      if OccursAt(head, sep, k) {
        assert head[k..k + |sep|] == s[k..k + |sep|];
        assert OccursAt(s, sep, k);
      }
    }
    ContainsIff(head, sep);
  }

  /** Joining all pieces of a split but the first gives the text after the
      first occurrence, or nothing when there is none. */
  lemma JoinSplitTail(s: string, sep: string)
    requires |sep| > 0
    ensures IndexOf(s, sep).None? ==> Join(Split(s, sep)[1..], sep) == ""
    ensures IndexOf(s, sep).Some? ==>
              Join(Split(s, sep)[1..], sep) == s[IndexOf(s, sep).value + |sep|..]
  {
    var parts := Split(s, sep);
    if IndexOf(s, sep).Some? {
      var rest := s[IndexOf(s, sep).value + |sep|..];
      assert parts[1..] == Split(rest, sep);
      JoinSplit(rest, sep);
    }
  }

  /** No piece of a split contains the separator. */
  lemma {:induction false} SplitPiecesAvoidSeparator(s: string, sep: string)
    requires |sep| > 0
    ensures forall p :: p in Split(s, sep) ==> !Contains(p, sep)
    decreases |s|
  {
    match IndexOf(s, sep)
    case None =>
      assert Split(s, sep) == [s];
    case Some(i) =>
      var rest := s[i + |sep|..];
      assert Split(s, sep) == [s[..i]] + Split(rest, sep);
      PrefixBeforeFirstOccurrence(s, sep, i);
      SplitPiecesAvoidSeparator(rest, sep);
  }

  /** For a one-character separator, splitting undoes joining pieces that do not
      contain the separator. */
  lemma {:induction false} SplitJoinSingleChar(parts: seq<string>, sep: string)
    requires |sep| == 1 && |parts| >= 1
    requires forall p :: p in parts ==> !Contains(p, sep)
    ensures Split(Join(parts, sep), sep) == parts
    decreases |parts|
  {
    if |parts| == 1 {
      assert Join(parts, sep) == parts[0];
      assert parts[0] in parts;
    } else {
      var p := parts[0];
      assert p in parts;
      var tail := Join(parts[1..], sep);
      var s := p + sep + tail;
      assert Join(parts, sep) == s;
      forall k | 0 <= k < |p|
        ensures !OccursAt(s, sep, k)
      {
        if OccursAt(s, sep, k) {
          assert p[k..k + 1] == s[k..k + 1];
          assert OccursAt(p, sep, k);
          assert false;
        }
      }
      assert s[|p|..|p| + 1] == sep;
      IndexOfIsFirst(s, sep, |p|);
      assert s[..|p|] == p;
      assert s[|p| + 1..] == tail;
      assert Split(s, sep) == [p] + Split(tail, sep);
      forall q | q in parts[1..] ensures !Contains(q, sep) {
        assert q in parts;
      }
      SplitJoinSingleChar(parts[1..], sep);
      assert parts == [p] + parts[1..];
    }
  }

  /** `s` starts with `prefix`. */
  predicate StartsWith(s: string, prefix: string) {
    |prefix| <= |s| && s[..|prefix|] == prefix
  }

  // ---------------------------------------------------------------------------
  // Decimal digits

  /** `\d` in a JavaScript regular expression: ASCII digits only. */
  predicate IsDigit(c: char) {
    '0' <= c <= '9'
  }

  predicate AllDigits(s: string) {
    forall i :: 0 <= i < |s| ==> IsDigit(s[i])
  }

  function DigitValue(c: char): nat
    requires IsDigit(c)
  {
    c as int - '0' as int
  }

  function DigitChar(d: nat): char
    requires d < 10
  {
    ('0' as int + d) as char
  }

  /** A hexadecimal digit of either case. */
  predicate IsHexDigit(c: char) {
    IsDigit(c) || ('a' <= c <= 'f') || ('A' <= c <= 'F')
  }

  /** `[0-9a-f]` in a regular expression. */
  predicate IsLowerHexDigit(c: char) {
    IsDigit(c) || ('a' <= c <= 'f')
  }

  /** The value of a string of decimal digits (`Number` on such a string). */
  function DecimalValue(s: string): nat
    requires AllDigits(s)
  {
    if |s| == 0 then 0 else 10 * DecimalValue(s[..|s| - 1]) + DigitValue(s[|s| - 1])
  }

  /** The decimal form of a non-negative integer, as `String(n)` writes it: never
      empty, only digits, and without leading zeros unless the number is 0. */
  function NatToDecimal(n: nat): (s: string)
    ensures |s| >= 1 && AllDigits(s)
    ensures n == 0 <==> s == "0"
    ensures n > 0 ==> s[0] != '0'
  {
    if n < 10 then [DigitChar(n)] else NatToDecimal(n / 10) + [DigitChar(n % 10)]
  }

  /** The value of a two- and of a four-digit string. */
  lemma DecimalOfDigits(a: nat, b: nat, c: nat, d: nat)
    requires a < 10 && b < 10 && c < 10 && d < 10
    ensures DecimalValue([DigitChar(a), DigitChar(b)]) == 10 * a + b
    ensures DecimalValue([DigitChar(a), DigitChar(b), DigitChar(c), DigitChar(d)])
            == 1000 * a + 100 * b + 10 * c + d
  {
    var s := [DigitChar(a), DigitChar(b), DigitChar(c), DigitChar(d)];
    assert s[..3] == [DigitChar(a), DigitChar(b), DigitChar(c)];
    assert s[..3][..2] == [DigitChar(a), DigitChar(b)];
    assert s[..3][..2][..1] == [DigitChar(a)];
    assert [DigitChar(a)][..0] == [];
    var t := [DigitChar(a), DigitChar(b)];
    assert t[..1] == [DigitChar(a)];
    assert DecimalValue([DigitChar(a)]) == a;
    assert DecimalValue(t) == 10 * DecimalValue(t[..1]) + DigitValue(t[1]);
  }

  /** Reading back the decimal form of `n` gives `n`. */
  lemma {:induction false} DecimalRoundTrip(n: nat)
    ensures DecimalValue(NatToDecimal(n)) == n
  {
    if n >= 10 {
      var s := NatToDecimal(n);
      assert s[..|s| - 1] == NatToDecimal(n / 10);
      DecimalRoundTrip(n / 10);
    }
  }
}
