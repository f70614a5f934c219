/** The byte-string operations of Go's `strings` package that the event
    processor relies on. A Go string is a sequence of bytes: `len`, slicing
    and every index below count bytes. */
module Strings {

  /** One byte of a Go string. */
  newtype Byte = b: int | 0 <= b < 256

  /** `strings.Count(s, string(b))`: how many times the byte `b` occurs in `s`. */
  function Count(s: seq<Byte>, b: Byte): (n: nat)
    ensures n <= |s|
    ensures n == 0 <==> forall i :: 0 <= i < |s| ==> s[i] != b
  {
    if s == [] then 0
    else
      assert forall i :: 1 <= i < |s| ==> s[i] == s[1..][i - 1];
      (if s[0] == b then 1 else 0) + Count(s[1..], b)
  }

  /** Counting distributes over concatenation. */
  lemma {:induction false} CountAppend(a: seq<Byte>, c: seq<Byte>, b: Byte)
    ensures Count(a + c, b) == Count(a, b) + Count(c, b)
  {
    if a == [] {
      assert a + c == c;
    } else {
      assert (a + c)[0] == a[0];
      assert (a + c)[1..] == a[1..] + c;
      CountAppend(a[1..], c, b);
    }
  }

  /** A prefix holds no more occurrences than the whole string. */
  lemma CountPrefix(s: seq<Byte>, k: nat, b: Byte)
    requires k <= |s|
    ensures Count(s[..k], b) <= Count(s, b)
    ensures Count(s, b) == Count(s[..k], b) + Count(s[k..], b)
  {
    assert s == s[..k] + s[k..];
    CountAppend(s[..k], s[k..], b);
  }

  /** `strings.Index(s, string(b))`: the first position of `b` in `s`, or -1. */
  function Index(s: seq<Byte>, b: Byte): (r: int)
    ensures -1 <= r < |s|
    ensures r == -1 <==> forall i :: 0 <= i < |s| ==> s[i] != b
    ensures r >= 0 ==> s[r] == b && forall i :: 0 <= i < r ==> s[i] != b
  {
    if s == [] then -1
    else if s[0] == b then 0
    else
      var i := Index(s[1..], b);
      assert forall k :: 1 <= k < |s| ==> s[k] == s[1..][k - 1];
      if i == -1 then -1 else i + 1
  }

  /** `strings.LastIndexAny(s, chars)` for a set of ASCII bytes: the last
      position of `s` holding one of `chars`, or -1. */
  function LastIndexAny(s: seq<Byte>, chars: set<Byte>): (r: int)
    ensures -1 <= r < |s|
    ensures r == -1 <==> forall i :: 0 <= i < |s| ==> s[i] !in chars
    ensures r >= 0 ==> s[r] in chars && forall i :: r < i < |s| ==> s[i] !in chars
  {
    if s == [] then -1
    else if s[|s| - 1] in chars then |s| - 1
    else LastIndexAny(s[..|s| - 1], chars)
  }

  /** A position holding one of `chars`, with none after it, is the last. */
  lemma LastIndexAnyAt(s: seq<Byte>, chars: set<Byte>, k: nat)
    requires k < |s| && s[k] in chars
    requires forall i :: k < i < |s| ==> s[i] !in chars
    ensures LastIndexAny(s, chars) == k
  {
  }

  /** `strings.LastIndex(s, string(b))`: the last position of `b` in `s`, or -1. */
  function LastIndex(s: seq<Byte>, b: Byte): (r: int)
    ensures -1 <= r < |s|
    ensures r == -1 <==> forall i :: 0 <= i < |s| ==> s[i] != b
    ensures r >= 0 ==> s[r] == b && forall i :: r < i < |s| ==> s[i] != b
  {
    LastIndexAny(s, {b})
  }
}
