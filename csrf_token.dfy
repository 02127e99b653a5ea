/**
 * `extractCSRFToken` of the end-to-end test client: the CSRF token is the
 * text between the first `X-Csrf-Token":"` of an HTML response body and
 * the first `","` after it.
 */
module E2eUtil {

  const Anchor: string := "X-Csrf-Token\":\""

  const Separator: string := "\",\""

  /** `p` occurs in `s` starting at index `i`. */
  predicate OccursAt(s: string, p: string, i: int) {
    0 <= i && i + |p| <= |s| && s[i..i + |p|] == p
  }

  /** The first occurrence of `p` in `s` at or after `from`, or -1. */
  function IndexFrom(s: string, p: string, from: nat): (r: int)
    requires from <= |s|
    decreases |s| - from
    ensures r == -1 || (from <= r && OccursAt(s, p, r))
    ensures r == -1 ==> forall k :: from <= k ==> !OccursAt(s, p, k)
    ensures r != -1 ==> forall k :: from <= k < r ==> !OccursAt(s, p, k)
  {
    if OccursAt(s, p, from) then from
    else if from == |s| then -1
    else IndexFrom(s, p, from + 1)
  }

  /** `strings.Index`: the index of the first occurrence of `p` in `s`, or -1. */
  function Index(s: string, p: string): (r: int)
    ensures r == -1 <==> forall k :: !OccursAt(s, p, k)
    ensures r != -1 ==> OccursAt(s, p, r) && forall k :: 0 <= k < r ==> !OccursAt(s, p, k)
  {
    IndexFrom(s, p, 0)
  }

  /** An occurrence in a suffix is an occurrence in the whole string, shifted. */
  lemma OccursInSuffix(s: string, p: string, start: nat)
    requires start <= |s|
    ensures forall k :: 0 <= k ==> (OccursAt(s[start..], p, k) <==> OccursAt(s, p, start + k))
  {
    forall k | 0 <= k ensures OccursAt(s[start..], p, k) <==> OccursAt(s, p, start + k) {
      if 0 <= k && k + |p| <= |s| - start {
        assert s[start..][k..k + |p|] == s[start + k..start + k + |p|];
      }
    }
  }

  /**
   * The token lies in `body[a..b]`: the first anchor of the body ends at
   * `a`, and the first separator at or after `a` starts at `b`.
   */
  predicate TokenSpan(body: string, a: int, b: int) {
    && a >= |Anchor|
    && OccursAt(body, Anchor, a - |Anchor|)
    && (forall k :: 0 <= k < a - |Anchor| ==> !OccursAt(body, Anchor, k))
    && a <= b
    && OccursAt(body, Separator, b)
    && (forall k :: a <= k < b ==> !OccursAt(body, Separator, k))
  }

  /** A token span is the one the two index lookups find. */
  lemma SpanIsFound(body: string)
    ensures forall a, b :: TokenSpan(body, a, b) ==>
              Index(body, Anchor) == a - |Anchor| && Index(body[a..], Separator) == b - a
  {
    forall a, b | TokenSpan(body, a, b)
      ensures Index(body, Anchor) == a - |Anchor| && Index(body[a..], Separator) == b - a
    {
      OccursInSuffix(body, Separator, a);
      var rest := body[a..];
      assert OccursAt(rest, Separator, b - a);
      forall k | 0 <= k < b - a ensures !OccursAt(rest, Separator, k) {
        assert !OccursAt(body, Separator, a + k);
      }
    }
  }

  /** When both index lookups succeed, they delimit a token span. */
  lemma FoundIsSpan(body: string, i: int, j: int)
    requires i == Index(body, Anchor) && i != -1
    requires j == Index(body[i + |Anchor|..], Separator) && j != -1
    ensures TokenSpan(body, i + |Anchor|, i + |Anchor| + j)
  {
    var a := i + |Anchor|;
    OccursInSuffix(body, Separator, a);
    forall k | a <= k < a + j ensures !OccursAt(body, Separator, k) {
      assert !OccursAt(body[a..], Separator, k - a);
    }
  }

  /**
   * `extractCSRFToken`: the text between the first anchor and the first
   * separator after it, or "" when either is missing. Total: it has no
   * precondition, so no input indexes out of bounds.
   */
  function ExtractCSRFToken(body: string): (token: string)
    ensures (forall k :: !OccursAt(body, Anchor, k)) ==> token == ""
    ensures forall a, b :: TokenSpan(body, a, b) ==> token == body[a..b]
    ensures (forall a, b :: !TokenSpan(body, a, b)) ==> token == ""
  {
    SpanIsFound(body);
    var i := Index(body, Anchor);
    if i == -1 then ""
    else
      var start := i + |Anchor|;
      var j := Index(body[start..], Separator);
      if j == -1 then ""
      else
        FoundIsSpan(body, i, j);
        body[start..start + j]
  }

  /** An occurrence that ends within the first `n` characters is one of `s[..n]`. */
  lemma OccursInPrefix(s: string, p: string, n: nat)
    requires n <= |s|
    ensures forall k :: 0 <= k && k + |p| <= n ==> (OccursAt(s[..n], p, k) <==> OccursAt(s, p, k))
  {
    forall k | 0 <= k && k + |p| <= n ensures OccursAt(s[..n], p, k) <==> OccursAt(s, p, k) {
      assert s[..n][k..k + |p|] == s[k..k + |p|];
    }
  }

  /** No anchor starting after the first one is needed: a missing separator gives "". */
  lemma NoSeparatorAfterAnchor(body: string, i: nat)
    requires OccursAt(body, Anchor, i) && forall k :: 0 <= k < i ==> !OccursAt(body, Anchor, k)
    requires forall k :: i + |Anchor| <= k ==> !OccursAt(body, Separator, k)
    ensures ExtractCSRFToken(body) == ""
  {
  }

  /** A token span splits the body into prefix, anchor, token, separator and rest. */
  lemma SpanLayout(body: string, a: int, b: int)
    requires TokenSpan(body, a, b)
    ensures body == body[..a - |Anchor|] + Anchor + body[a..b] + Separator + body[b + |Separator|..]
  {
    assert body[a - |Anchor|..a] == Anchor;
    assert body[b..b + |Separator|] == Separator;
    assert body == body[..a - |Anchor|] + body[a - |Anchor|..a] + body[a..b] + body[b..b + |Separator|] + body[b + |Separator|..];
  }

  /** A token span holds no separator. */
  lemma SpanHoldsNoSeparator(body: string, a: int, b: int)
    requires TokenSpan(body, a, b)
    ensures forall k :: !OccursAt(body[a..b], Separator, k)
  {
    var token := body[a..b];
    forall k | 0 <= k && k + |Separator| <= |token| ensures !OccursAt(token, Separator, k) {
      var here, there := token[k..k + |Separator|], body[a + k..a + k + |Separator|];
      forall m | 0 <= m < |Separator| ensures here[m] == there[m] {
        assert here[m] == token[k + m] == body[a + k + m];
      }
      assert here == there;
      assert !OccursAt(body, Separator, a + k);
    }
  }

  /**
   * On success the body is laid out as prefix, anchor, token, separator,
   * rest; the token holds no separator, and it is at most as long as the
   * body without the anchor and the separator.
   */
  lemma TokenLayout(body: string, a: int, b: int)
    requires TokenSpan(body, a, b)
    ensures body == body[..a - |Anchor|] + Anchor + ExtractCSRFToken(body) + Separator + body[b + |Separator|..]
    ensures forall k :: !OccursAt(ExtractCSRFToken(body), Separator, k)
    ensures |ExtractCSRFToken(body)| <= |body| - |Anchor| - |Separator|
  {
    assert ExtractCSRFToken(body) == body[a..b];
    SpanLayout(body, a, b);
    SpanHoldsNoSeparator(body, a, b);
  }

  /** The body `prefix + Anchor + token + Separator + rest`. */
  function Layout(prefix: string, token: string, rest: string): (body: string)
    ensures |body| == |prefix| + |Anchor| + |token| + |Separator| + |rest|
  {
    prefix + Anchor + token + Separator + rest
  }

  /**
   * The converse of `TokenLayout`: when no anchor starts inside `prefix`
   * and no separator starts inside `token`, the token is what is extracted.
   */
  lemma ExtractFromLayout(prefix: string, token: string, rest: string)
    requires forall k :: 0 <= k < |prefix| ==> !OccursAt(prefix + Anchor, Anchor, k)
    requires forall k :: 0 <= k < |token| ==> !OccursAt(token + Separator, Separator, k)
    ensures ExtractCSRFToken(Layout(prefix, token, rest)) == token
  {
    var body := Layout(prefix, token, rest);
    var a := |prefix| + |Anchor|;
    var b := a + |token|;
    assert body[..a] == prefix + Anchor;
    OccursInPrefix(body, Anchor, a);
    assert OccursAt(body, Anchor, |prefix|);
    assert body[a..] == token + Separator + rest;
    OccursInSuffix(body, Separator, a);
    OccursInPrefix(body[a..], Separator, |token| + |Separator|);
    assert body[a..][..|token| + |Separator|] == token + Separator;
    forall k | a <= k < b ensures !OccursAt(body, Separator, k) {
      assert !OccursAt(token + Separator, Separator, k - a);
    }
    assert OccursAt(body, Separator, b) by {
      assert body[b..b + |Separator|] == Separator;
    }
    assert TokenSpan(body, a, b);
    assert body[a..b] == token;
  }

  /** A page context whose token is `abc` yields `abc`. */
  lemma ExtractFromPageContext()
    ensures ExtractCSRFToken(Layout("{\"", "abc", "user\":1}")) == "abc"
  {
    var prefix, token, rest := "{\"", "abc", "user\":1}";
    forall k | 0 <= k < |prefix| ensures !OccursAt(prefix + Anchor, Anchor, k) {
      assert (prefix + Anchor)[k] != Anchor[0];
    }
    forall k | 0 <= k < |token| ensures !OccursAt(token + Separator, Separator, k) {
      assert (token + Separator)[k] != Separator[0];
    }
    ExtractFromLayout(prefix, token, rest);
  }

}
