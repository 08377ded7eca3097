/**
 * The pieces of JavaScript string semantics that the chat route and the
 * catalog export both rely on: how a possibly-missing value is rendered,
 * the whitespace class shared by the regular expression `\s` and by
 * `String.prototype.trim`, and trimming itself.
 */
module JsText {

  datatype Option<T> = None | Some(value: T)

  /** A JavaScript value read from a request body, a catalog record or an
      API response: absent (`undefined`), `null`, or a string. */
  datatype Field = Missing | Null | Text(s: string)

  /** The text a template literal `${v}` produces for `v`. */
  function Show(v: Field): string {
    match v
    case Missing => "undefined"
    case Null => "null"
    case Text(s) => s
  }

  /** `v || ""`: every falsy value (undefined, null, the empty string) gives "". */
  function OrEmpty(v: Field): string {
    if v.Text? then v.s else ""
  }

  /** ECMAScript WhiteSpace and LineTerminator code points: the class matched
      by `\s` and removed by `trim()`. */
  predicate IsSpace(c: char) {
    || c == '\t' || c == '\n' || c == '\U{B}' || c == '\U{C}' || c == '\r'
    || c == ' ' || c == '\U{A0}' || c == '\U{1680}'
    || ('\U{2000}' <= c <= '\U{200A}')
    || c == '\U{2028}' || c == '\U{2029}' || c == '\U{202F}' || c == '\U{205F}'
    || c == '\U{3000}' || c == '\U{FEFF}'
  }

  predicate AllSpace(s: string) {
    forall i :: 0 <= i < |s| ==> IsSpace(s[i])
  }

  /** Neither the first nor the last character is whitespace. */
  predicate Trimmed(s: string) {
    s == [] || (!IsSpace(s[0]) && !IsSpace(s[|s| - 1]))
  }

  /** Drops the maximal whitespace prefix. */
  function TrimStart(s: string): (r: string)
    ensures |r| <= |s| && r == s[|s| - |r|..]
    ensures AllSpace(s[..|s| - |r|])
    ensures r == [] || !IsSpace(r[0])
  {
    if s != [] && IsSpace(s[0]) then TrimStart(s[1..]) else s
  }

  /** How many whitespace characters `trim()` removes at the front. */
  function Lead(s: string): (k: nat)
    ensures k <= |s| && AllSpace(s[..k])
    ensures k < |s| ==> !IsSpace(s[k])
  {
    if s != [] && IsSpace(s[0]) then
      var k := Lead(s[1..]) + 1;
      assert s[..k] == [s[0]] + s[1..][..k - 1];
      k
    else 0
  }

  /** How many whitespace characters `trim()` removes at the end: the length
      of the maximal whitespace suffix. */
  function Trail(s: string): (n: nat)
    ensures n <= |s| && AllSpace(s[|s| - n..])
    ensures n < |s| ==> !IsSpace(s[|s| - n - 1])
  {
    if s != [] && IsSpace(s[|s| - 1]) then
      var n := Trail(s[..|s| - 1]) + 1;
      assert s[|s| - n..] == s[..|s| - 1][|s| - n..] + [s[|s| - 1]];
      n
    else 0
  }

  /** `s.trim()`: the text between the whitespace prefix and the whitespace
      suffix. The result is a contiguous piece of `s` with no whitespace at
      either edge, and it is empty exactly when `s` is all whitespace. */
  function Trim(s: string): (r: string)
    ensures Trimmed(r)
    ensures Lead(s) + |r| <= |s| && r == s[Lead(s)..Lead(s) + |r|]
    ensures AllSpace(s[..Lead(s)]) && AllSpace(s[Lead(s) + |r|..])
    ensures r == [] <==> AllSpace(s)
  {
    var k := Lead(s);
    if k == |s| then
      assert s[..k] == s;
      []
    else
      var n := Trail(s);
      TrailAfterLead(s, k, n);
      AllSpaceJoin(s, k);
      s[k..|s| - n]
  }

  /** The whitespace suffix ends after the first non-whitespace character. */
  lemma TrailAfterLead(s: string, k: nat, n: nat)
    requires k < |s| && !IsSpace(s[k])
    requires n <= |s| && AllSpace(s[|s| - n..])
    ensures k < |s| - n
  {
    forall i | |s| - n <= i < |s| ensures IsSpace(s[i]) {
      assert s[i] == s[|s| - n..][i - (|s| - n)];
    }
  }

  lemma AllSpaceJoin(s: string, k: nat)
    requires k <= |s|
    ensures AllSpace(s) <==> AllSpace(s[..k]) && AllSpace(s[k..])
  {
    if AllSpace(s[..k]) && AllSpace(s[k..]) {
      forall i | 0 <= i < |s| ensures IsSpace(s[i]) {
        if i < k { assert s[i] == s[..k][i]; }
        else { assert s[i] == s[k..][i - k]; }
      }
    }
  }

  /** Text that already has no whitespace at its edges is left alone, so
      trimming twice is trimming once. */
  lemma TrimFixpoint(s: string)
    ensures Trim(s) == s <==> Trimmed(s)
  {
    if Trimmed(s) {
      if s != [] {
        assert Lead(s) == 0;
        assert Trail(s) == 0;
      }
    }
  }

  lemma TrimIdempotent(s: string)
    ensures Trim(Trim(s)) == Trim(s)
  {
    TrimFixpoint(Trim(s));
  }

  predicate StartsWith(s: string, prefix: string) {
    prefix <= s
  }

  predicate EndsWith(s: string, suffix: string) {
    |suffix| <= |s| && s[|s| - |suffix|..] == suffix
  }

  /** `hay.includes(needle)`. */
  predicate Contains(hay: string, needle: string)
    decreases |hay|
  {
    needle <= hay || (hay != [] && Contains(hay[1..], needle))
  }

  lemma AppendAssoc(x: string, y: string, z: string)
    ensures x + (y + z) == (x + y) + z
  {
  }

  /** Text found in the second piece is found in the joined text. */
  lemma {:induction false} ContainsAfter(a: string, b: string, needle: string)
    requires Contains(b, needle)
    ensures Contains(a + b, needle)
  {
    if a != [] {
      assert (a + b)[1..] == a[1..] + b;
      ContainsAfter(a[1..], b, needle);
    } else {
      assert a + b == b;
    }
  }

  /** Text found in the first piece is found in the joined text. */
  lemma {:induction false} ContainsBefore(a: string, b: string, needle: string)
    requires Contains(a, needle)
    ensures Contains(a + b, needle)
  {
    if !(needle <= a) {
      assert (a + b)[1..] == a[1..] + b;
      ContainsBefore(a[1..], b, needle);
    }
  }

  /** Text found in the middle piece is found in the whole. */
  lemma ContainsWithin(a: string, b: string, c: string, needle: string)
    requires Contains(b, needle)
    ensures Contains(a + b + c, needle)
  {
    ContainsAfter(a, b, needle);
    ContainsBefore(a + b, c, needle);
  }

  /** Every text contains itself. */
  lemma ContainsSelf(s: string)
    ensures Contains(s, s)
  {
    assert s <= s;
  }
}
