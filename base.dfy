/** Shared vocabulary of the model: optional request fields, identifiers,
    clock values, JavaScript truthiness and the schema `trim` option. */
module Base {

  datatype Option<+T> = None | Some(value: T)

  /** A document identifier. The store hands out fresh ones; whether a
      request parameter is a well-formed identifier is decided by an
      uninterpreted predicate passed to every handler that checks it. */
  type ObjectId = nat

  /** Milliseconds since the epoch, as `Date.now()` returns them. */
  type Time = nat

  /** JavaScript truthiness of an optional request-body string:
      present and not the empty string. */
  predicate Truthy(s: Option<string>) {
    s.Some? && s.value != ""
  }

  /** The characters `String.prototype.trim` removes: white space and line
      terminators in the sense of ECMAScript. */
  predicate IsSpace(c: char) {
    || c == ' '
    || ('\t' <= c <= '\r')
    || c == '\U{A0}' || c == '\U{1680}'
    || ('\U{2000}' <= c <= '\U{200A}')
    || c == '\U{2028}' || c == '\U{2029}' || c == '\U{202F}'
    || c == '\U{205F}' || c == '\U{3000}' || c == '\U{FEFF}'
  }

  /** `s` neither starts nor ends with white space. */
  predicate Trimmed(s: string) {
    s == [] || (!IsSpace(s[0]) && !IsSpace(s[|s| - 1]))
  }

  /** Where `trim` cuts at the front: the first position from `i` on that
      holds a non-space character, or `|s|` when there is none. */
  function ContentStart(s: string, i: nat): (a: nat)
    requires i <= |s|
    ensures i <= a <= |s|
    ensures forall k :: i <= k < a ==> IsSpace(s[k])
    ensures a == |s| || !IsSpace(s[a])
    decreases |s| - i
  {
    if i < |s| && IsSpace(s[i]) then ContentStart(s, i + 1) else i
  }

  /** Where `trim` cuts at the back: the position after the last non-space
      character of `s[lo..j]`, or `lo` when there is none. */
  function ContentEnd(s: string, lo: nat, j: nat): (b: nat)
    requires lo <= j <= |s|
    ensures lo <= b <= j
    ensures forall k :: b <= k < j ==> IsSpace(s[k])
    ensures b == lo || !IsSpace(s[b - 1])
    decreases j
  {
    if lo < j && IsSpace(s[j - 1]) then ContentEnd(s, lo, j - 1) else j
  }

  /** `r` is the slice of `s` starting at `i`, and everything of `s` before
      and after that slice is white space. */
  predicate SpaceAround(s: string, r: string, i: nat) {
    && i + |r| <= |s| && r == s[i..i + |r|]
    && (forall k :: 0 <= k < i ==> IsSpace(s[k]))
    && (forall k :: i + |r| <= k < |s| ==> IsSpace(s[k]))
  }

  /** The schema option `trim: true`: the stored string is the input with
      white space removed at both ends, and nothing else removed. */
  function Trim(s: string): (r: string)
    ensures Trimmed(r)
    ensures exists i :: SpaceAround(s, r, i)
  {
    var a := ContentStart(s, 0);
    var b := ContentEnd(s, a, |s|);
    assert SpaceAround(s, s[a..b], a);
    s[a..b]
  }

  /** A string with no white space at its ends is left as it is. */
  lemma TrimKeepsTrimmed(s: string)
    requires Trimmed(s)
    ensures Trim(s) == s
  {
    if s != [] {
      assert ContentStart(s, 0) == 0;
      assert ContentEnd(s, 0, |s|) == |s|;
    }
    assert s[0..|s|] == s;
  }

  /** Trimming twice is trimming once. */
  lemma TrimIdempotent(s: string)
    ensures Trim(Trim(s)) == Trim(s)
  {
    TrimKeepsTrimmed(Trim(s));
  }
}
