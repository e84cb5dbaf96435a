/**
  Character and string operations the term store and the validator are built
  on: Python's `str.isspace`, `str.lower` (restricted to the Latin and
  Vietnamese letters this system handles), `str.strip`, and the key
  normalisation `english.lower().strip()`.
 */
module Text {

  datatype Option<+T> = None | Some(value: T)

  /** The characters Python's `str.isspace` accepts; `\s` in a `str` regular
      expression matches exactly the same set. */
  predicate IsSpace(c: char) {
    || '\t' <= c <= '\r'
    || '\U{1C}' <= c <= ' '
    || c == '\U{85}' || c == '\U{A0}' || c == '\U{1680}'
    || '\U{2000}' <= c <= '\U{200A}'
    || c == '\U{2028}' || c == '\U{2029}' || c == '\U{202F}' || c == '\U{205F}'
    || c == '\U{3000}'
  }

  /** Python's `str.lower` on one character, for the letters it matters for
      here: ASCII, the Latin-1 capitals, the capitals Ă Đ Ĩ Ũ Ơ Ư, and the
      Vietnamese capitals of the Latin Extended Additional block (even code
      points from U+1EA0, each followed by its small letter). */
  function LowerChar(c: char): (r: char)
    ensures c != r ==> !IsSpace(c) && !IsSpace(r)
  {
    if 'A' <= c <= 'Z' then (c as int + 32) as char
    else if '\U{C0}' <= c <= '\U{DE}' && c != '\U{D7}' then (c as int + 32) as char
    else if c == 'Ă' || c == 'Đ' || c == 'Ĩ' || c == 'Ũ' || c == 'Ơ' || c == 'Ư' then (c as int + 1) as char
    else if '\U{1EA0}' <= c <= '\U{1EF8}' && (c as int) % 2 == 0 then (c as int + 1) as char
    else c
  }

  /** Lower-casing a character twice is lower-casing it once. */
  lemma LowerCharIdempotent(c: char)
    ensures LowerChar(LowerChar(c)) == LowerChar(c)
  {
  }

  /** Python's `str.lower`. */
  function Lower(s: string): (r: string)
    ensures |r| == |s|
  {
    seq(|s|, k requires 0 <= k < |s| => LowerChar(s[k]))
  }

  /** Number of leading whitespace characters. */
  function Lead(s: string): (n: nat)
    ensures n <= |s|
    ensures forall k :: 0 <= k < n ==> IsSpace(s[k])
    ensures n < |s| ==> !IsSpace(s[n])
  {
    if |s| > 0 && IsSpace(s[0]) then 1 + Lead(s[1..]) else 0
  }

  /** Number of trailing whitespace characters. */
  function Trail(s: string): (n: nat)
    ensures n <= |s|
    ensures forall k :: |s| - n <= k < |s| ==> IsSpace(s[k])
    ensures n < |s| ==> !IsSpace(s[|s| - 1 - n])
  {
    if |s| > 0 && IsSpace(s[|s| - 1]) then 1 + Trail(s[..|s| - 1]) else 0
  }

  /** Python's `str.strip()`: the text with the leading and then the trailing
      whitespace removed. */
  function Strip(s: string): string
  {
    var t := s[Lead(s)..];
    t[..|t| - Trail(t)]
  }

  /** `Strip` keeps one contiguous piece of the text and cuts off only
      whitespace before and after it. */
  lemma StripRemovesEdgeSpace(s: string, i: nat, j: nat)
    requires i == Lead(s) && j == |s| - Trail(s[i..])
    ensures i <= j <= |s| && Strip(s) == s[i..j]
    ensures forall k :: 0 <= k < i ==> IsSpace(s[k])
    ensures forall k :: j <= k < |s| ==> IsSpace(s[k])
  {
    var t := s[i..];
    SuffixOfSlice(s, i, t, |t| - Trail(t));
  }

  /** A prefix `t[..m]` of the slice `t == s[i..]` is `s[i..i + m]`, and what
      follows it in `t` follows `i + m` in `s`. */
  lemma SuffixOfSlice(s: string, i: nat, t: string, m: nat)
    requires i <= |s| && t == s[i..] && m <= |t|
    requires forall k :: m <= k < |t| ==> IsSpace(t[k])
    ensures t[..m] == s[i..i + m]
    ensures forall k :: i + m <= k < |s| ==> IsSpace(s[k])
  {
    forall k | i + m <= k < |s|
      ensures IsSpace(s[k])
    {
      assert t[k - i] == s[k];
    }
  }

  /** Neither begins nor ends with whitespace. */
  predicate Stripped(s: string) {
    s == [] || (!IsSpace(s[0]) && !IsSpace(s[|s| - 1]))
  }

  /** Stripping never yields text that begins or ends with whitespace. */
  lemma StripHasNoEdgeSpace(s: string)
    ensures Stripped(Strip(s))
  {
    var i := Lead(s);
    var t := s[i..];
    var n := Trail(t);
    var r := t[..|t| - n];
    if r != [] {
      assert r[0] == s[i];
      assert r[|r| - 1] == t[|t| - 1 - n];
    }
  }

  /** A string is its own strip exactly when it is empty or neither begins
      nor ends with whitespace. */
  lemma StripFixedPoint(s: string)
    ensures Strip(s) == s <==> Stripped(s)
  {
    StripHasNoEdgeSpace(s);
    if s != [] && !IsSpace(s[0]) && !IsSpace(s[|s| - 1]) {
      assert Lead(s) == 0;
      assert s[0..] == s;
      assert Trail(s) == 0;
    }
  }

  /** `str.strip` is idempotent. */
  lemma StripIdempotent(s: string)
    ensures Strip(Strip(s)) == Strip(s)
  {
    StripHasNoEdgeSpace(s);
    StripFixedPoint(Strip(s));
  }

  /** The store's key normalisation, `english.lower().strip()`. */
  function Normalize(english: string): (key: string)
  {
    Strip(Lower(english))
  }

  /** Every character is its own lower case. */
  predicate IsLower(s: string) {
    forall k :: 0 <= k < |s| ==> LowerChar(s[k]) == s[k]
  }

  /** The shape of a normalised key: lower case and stripped. */
  predicate IsKey(s: string) {
    IsLower(s) && Stripped(s)
  }

  /** Lower-cased text is lower case. */
  lemma LowerIsLower(s: string)
    ensures IsLower(Lower(s))
  {
    forall k | 0 <= k < |s|
      ensures LowerChar(Lower(s)[k]) == Lower(s)[k]
    {
      LowerCharIdempotent(s[k]);
    }
  }

  /** Stripping lower-case text leaves it lower case. */
  lemma StripKeepsLower(s: string)
    requires IsLower(s)
    ensures IsLower(Strip(s))
  {
    var i := Lead(s);
    var t := s[i..];
    forall k | 0 <= k < |t|
      ensures LowerChar(t[k]) == t[k]
    {
      assert t[k] == s[i + k];
    }
    var r := t[..|t| - Trail(t)];
    forall k | 0 <= k < |r|
      ensures LowerChar(r[k]) == r[k]
    {
      assert r[k] == t[k];
    }
  }

  /** Normalising yields a key. */
  lemma NormalizeIsKey(english: string)
    ensures IsKey(Normalize(english))
  {
    LowerIsLower(english);
    StripKeepsLower(Lower(english));
    StripHasNoEdgeSpace(Lower(english));
  }

  /** A key normalises to itself. */
  lemma KeyIsNormal(key: string)
    requires IsKey(key)
    ensures Normalize(key) == key
  {
    assert Lower(key) == key;
    StripFixedPoint(key);
  }

  /** Normalisation is idempotent. */
  lemma NormalizeIdempotent(english: string)
    ensures Normalize(Normalize(english)) == Normalize(english)
  {
    NormalizeIsKey(english);
    KeyIsNormal(Normalize(english));
  }
}
