/**
 * The colour validator `normalizeHex` of the colour menu (index.js:268-275),
 * lifted to a top-level function: trim, prefix `#` when missing, lower-case,
 * and accept only `#` followed by exactly six lower-case hexadecimal digits.
 */
module HexColor {
  import opened Wrappers

  /** The characters `String.prototype.trim` strips: ECMAScript WhiteSpace and LineTerminator. */
  predicate IsJsWhitespace(c: char) {
    c in {'\t', '\n', '\U{000B}', '\U{000C}', '\r', ' ', '\U{00A0}', '\U{1680}',
          '\U{2028}', '\U{2029}', '\U{202F}', '\U{205F}', '\U{3000}', '\U{FEFF}'}
    || ('\U{2000}' <= c <= '\U{200A}')
  }

  predicate IsHexDigit(c: char) {
    ('0' <= c <= '9') || ('a' <= c <= 'f')
  }

  /** The regular expression `/^#([0-9a-f]{6})$/`. */
  predicate IsHexColor(s: string) {
    |s| == 7 && s[0] == '#' && forall i :: 1 <= i < 7 ==> IsHexDigit(s[i])
  }

  predicate IsUpperAscii(c: char) {
    'A' <= c <= 'Z'
  }

  /** The index of the first non-whitespace character at or after `i` (`|s|` when there is none). */
  function SkipLeading(s: string, i: nat): (n: nat)
    requires i <= |s|
    ensures i <= n <= |s|
    ensures forall k :: i <= k < n ==> IsJsWhitespace(s[k])
    ensures n < |s| ==> !IsJsWhitespace(s[n])
    decreases |s| - i
  {
    if i < |s| && IsJsWhitespace(s[i]) then SkipLeading(s, i + 1) else i
  }

  /** The end (exclusive) of `s[lo..j]` once trailing whitespace is dropped. */
  function SkipTrailing(s: string, lo: nat, j: nat): (n: nat)
    requires lo <= j <= |s|
    ensures lo <= n <= j
    ensures forall k :: n <= k < j ==> IsJsWhitespace(s[k])
    ensures n > lo ==> !IsJsWhitespace(s[n - 1])
    decreases j
  {
    if j > lo && IsJsWhitespace(s[j - 1]) then SkipTrailing(s, lo, j - 1) else j
  }

  /** `r` is `s` with exactly the first `i` and the last `|s| - i - |r|` characters removed, all of them whitespace. */
  ghost predicate TrimmedAt(s: string, r: string, i: int) {
    0 <= i <= |s| - |r| && r == s[i..i + |r|]
    && (forall k :: 0 <= k < i ==> IsJsWhitespace(s[k]))
    && (forall k :: i + |r| <= k < |s| ==> IsJsWhitespace(s[k]))
  }

  /** `String.prototype.trim`. */
  function Trim(s: string): (r: string)
    ensures exists i :: TrimmedAt(s, r, i)
    ensures r != [] ==> !IsJsWhitespace(r[0]) && !IsJsWhitespace(r[|r| - 1])
    ensures r == [] <==> forall k :: 0 <= k < |s| ==> IsJsWhitespace(s[k])
    ensures s != [] && !IsJsWhitespace(s[0]) && !IsJsWhitespace(s[|s| - 1]) ==> r == s
  {
    var i := SkipLeading(s, 0);
    var j := SkipTrailing(s, i, |s|);
    assert TrimmedAt(s, s[i..j], i);
    s[i..j]
  }

  /** Lower-cases one character; only ASCII letters change (see README for why this suffices). */
  function LowerChar(c: char): char {
    if IsUpperAscii(c) then (c as int + 32) as char else c
  }

  /** `String.prototype.toLowerCase`, restricted to ASCII letters. */
  function ToLower(s: string): (r: string)
    ensures |r| == |s|
    ensures forall i :: 0 <= i < |s| ==> !IsUpperAscii(r[i])
    ensures forall i :: 0 <= i < |s| ==>
      r[i] == s[i] || (IsUpperAscii(s[i]) && r[i] as int == s[i] as int + 32)
  {
    seq(|s|, i requires 0 <= i < |s| => LowerChar(s[i]))
  }

  /** Prefixes `#` unless the string already starts with it. */
  function WithHash(s: string): string {
    if |s| > 0 && s[0] == '#' then s else "#" + s
  }

  /** The string the regular expression is tested against. */
  function Candidate(v: string): string {
    ToLower(WithHash(Trim(v)))
  }

  /**
   * `normalizeHex(v)`: `None` stands for `null`/`undefined` on both sides.
   * Accepted exactly when the trimmed, `#`-prefixed, lower-cased input is a
   * six-digit hex colour, and then that string is returned.
   */
  function NormalizeHex(v: Option<string>): (r: Option<string>)
    ensures r.Some? <==> v.Some? && IsHexColor(Candidate(v.value))
    ensures r.Some? ==> r.value == Candidate(v.value)
    ensures r.Some? ==> |r.value| == 7 && r.value[0] == '#' && ToLower(r.value) == r.value
    ensures v.None? || (forall k :: 0 <= k < |v.value| ==> IsJsWhitespace(v.value[k])) ==> r.None?
  {
    if v.None? || v.value == "" then None
    else
      var s := Trim(v.value);
      if s == "" then None
      else
        var s := ToLower(WithHash(s));
        if IsHexColor(s) then Some(s) else None
  }

  lemma HexColorIsCanonical(s: string)
    requires IsHexColor(s)
    ensures Trim(s) == s && WithHash(s) == s && ToLower(s) == s
  {
  }

  /** Feeding an accepted result back in returns it unchanged. */
  lemma NormalizeHexIdempotent(v: Option<string>)
    requires NormalizeHex(v).Some?
    ensures NormalizeHex(NormalizeHex(v)) == NormalizeHex(v)
  {
  }

  /** A bare six-digit code gains its `#`. */
  lemma AcceptsBareDigits()
    ensures NormalizeHex(Some("ff00aa")) == Some("#ff00aa")
  {
    var s := "ff00aa";
    assert !IsJsWhitespace(s[0]) && !IsJsWhitespace(s[5]);
    assert Trim(s) == s;
    assert WithHash(s) == "#ff00aa";
    var h := "#ff00aa";
    assert IsHexDigit(h[1]) && IsHexDigit(h[2]) && IsHexDigit(h[3]) && IsHexDigit(h[4]) && IsHexDigit(h[5]) && IsHexDigit(h[6]);
    assert IsHexColor(h);
    HexColorIsCanonical(h);
    assert Candidate(s) == h;
  }

  /** Surrounding whitespace is dropped and upper case is folded. */
  lemma AcceptsPaddedUpperCase()
    ensures NormalizeHex(Some(" #FF00AA\n")) == Some("#ff00aa")
  {
    var s := " #FF00AA\n";
    assert IsJsWhitespace(s[0]) && !IsJsWhitespace(s[1]);
    assert SkipLeading(s, 1) == 1;
    assert SkipLeading(s, 0) == 1;
    assert IsJsWhitespace(s[8]) && !IsJsWhitespace(s[7]);
    assert SkipTrailing(s, 1, 8) == 8;
    assert SkipTrailing(s, 1, 9) == 8;
    assert Trim(s) == "#FF00AA";
    var l := ToLower("#FF00AA");
    assert l == "#ff00aa" by {
      assert l[1] == 'f' && l[2] == 'f' && l[3] == '0' && l[4] == '0' && l[5] == 'a' && l[6] == 'a';
    }
  }

  /** Too few digits, the empty string and a missing value are all refused. */
  lemma RejectsShortAndEmpty()
    ensures NormalizeHex(Some("#12")) == None
    ensures NormalizeHex(Some("")) == None
    ensures NormalizeHex(None) == None
  {
  }
}
