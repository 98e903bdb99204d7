/**
 * The few pieces of Python string behaviour the handlers rely on:
 * `str.strip()` with no argument, and the truthiness of an optional string.
 */
module PyText {
  import opened Wrappers

  /** The characters for which Python's `str.isspace()` holds; `strip()` removes exactly these. */
  predicate IsSpace(c: char)
  {
    || c == ' '
    || '\t' <= c <= '\r'
    || '\U{1C}' <= c <= '\U{1F}'
    || c == '\U{85}' || c == '\U{A0}' || c == '\U{1680}'
    || '\U{2000}' <= c <= '\U{200A}'
    || c == '\U{2028}' || c == '\U{2029}' || c == '\U{202F}' || c == '\U{205F}' || c == '\U{3000}'
  }

  /** Every character of `s` is whitespace (true of the empty string). */
  ghost predicate IsBlank(s: string)
  {
    forall k :: 0 <= k < |s| ==> IsSpace(s[k])
  }

  /** `s.lstrip()`: the suffix of `s` left after dropping leading whitespace. */
  function TrimStart(s: string): (r: string)
    ensures |r| <= |s| && r == s[|s| - |r|..]
    ensures r == [] || !IsSpace(r[0])
    ensures forall k :: 0 <= k < |s| - |r| ==> IsSpace(s[k])
    decreases |s|
  {
    if s != [] && IsSpace(s[0]) then TrimStart(s[1..]) else s
  }

  /** `s.rstrip()`: the prefix of `s` left after dropping trailing whitespace. */
  function TrimEnd(s: string): (r: string)
    ensures |r| <= |s| && r == s[..|r|]
    ensures r == [] || !IsSpace(r[|r| - 1])
    ensures forall k :: |r| <= k < |s| ==> IsSpace(s[k])
    decreases |s|
  {
    if s != [] && IsSpace(s[|s| - 1]) then TrimEnd(s[..|s| - 1]) else s
  }

  /** `s.strip()`: no longer than `s`, and, when not empty, neither starting nor ending
      with whitespace. */
  function Strip(s: string): (r: string)
    ensures |r| <= |s|
    ensures r == [] || (!IsSpace(r[0]) && !IsSpace(r[|r| - 1]))
  {
    var t := TrimStart(s);
    assert TrimEnd(t) == [] || TrimEnd(t)[0] == t[0];
    TrimEnd(t)
  }

  /** `strip()` leaves the contiguous piece of `s` that starts after the leading whitespace. */
  lemma StripIsSlice(s: string)
    ensures var i, r := |s| - |TrimStart(s)|, Strip(s);
      i + |r| <= |s| && r == s[i..i + |r|]
  {
    var t := TrimStart(s);
    var r := TrimEnd(t);
    PrefixOfSuffix(s, |s| - |t|, |r|);
  }

  /** Cutting `n` elements off the front of the suffix `s[i..]` is the slice `s[i..i + n]`. */
  lemma PrefixOfSuffix<T>(s: seq<T>, i: nat, n: nat)
    requires i + n <= |s|
    ensures s[i..][..n] == s[i..i + n]
  {
    forall k | 0 <= k < n ensures s[i..][..n][k] == s[i..i + n][k] {
    }
  }

  /** What `strip()` removes, on either side of the piece it keeps, is whitespace. */
  lemma StripRemovesOnlySpace(s: string)
    ensures var i, r := |s| - |TrimStart(s)|, Strip(s);
      && (forall k :: 0 <= k < i ==> IsSpace(s[k]))
      && (forall k :: i + |r| <= k < |s| ==> IsSpace(s[k]))
  {
    var t := TrimStart(s);
    var i := |s| - |t|;
    forall k | i + |TrimEnd(t)| <= k < |s| ensures IsSpace(s[k]) {
      assert s[k] == t[k - i];
    }
  }

  /** `strip()` yields the empty string exactly when the input is all whitespace. */
  lemma {:induction false} StripEmptyIffBlank(s: string)
    ensures Strip(s) == [] <==> IsBlank(s)
  {
    var t := TrimStart(s);
    assert t == [] || t[0] == s[|s| - |t|];
  }

  /** `strip()` is idempotent. */
  lemma StripIdempotent(s: string)
    ensures Strip(Strip(s)) == Strip(s)
  {
    var r := Strip(s);
    if r != [] {
      assert TrimStart(r) == r;
      assert TrimEnd(r) == r;
    }
  }

  /** Python truthiness of an optional string: neither `None` nor `""`. */
  predicate IsTruthy(s: Option<string>)
  {
    s.Some? && s.value != []
  }
}
