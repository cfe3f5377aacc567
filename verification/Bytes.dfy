/** Bytes, optional values and NUL-terminated strings. */
module Bytes {
  type Byte = b: int | 0 <= b < 256

  datatype Option<+T> = None | Some(value: T)

  const NUL: Byte := 0

  /** A region of memory that holds a string: some byte of it is NUL. */
  predicate Terminated(s: seq<Byte>) {
    NUL in s
  }

  /** The characters of the string that starts a region. */
  function CStr(s: seq<Byte>): (chars: seq<Byte>)
    requires Terminated(s)
    ensures NUL !in chars
    ensures |chars| < |s| && s[..|chars|] == chars && s[|chars|] == NUL
  {
    if s[0] == NUL then [] else [s[0]] + CStr(s[1..])
  }

  /** A region holds one string only: its characters end at the first NUL. */
  lemma {:induction false} CStrIs(s: seq<Byte>, n: nat)
    requires n < |s| && s[n] == NUL && NUL !in s[..n]
    ensures Terminated(s) && CStr(s) == s[..n]
  {
    assert s[n] in s;
    if n > 0 {
      assert s[0] == s[..n][0] && s[1..][..n - 1] == s[..n][1..];
      CStrIs(s[1..], n - 1);
    }
  }

  /** The value of a byte read through a signed char. */
  function Signed(b: Byte): int {
    if b < 128 then b else b - 256
  }

  function Min(a: int, b: int): int {
    if a <= b then a else b
  }

  /** At most the first n elements. */
  function Take<T>(s: seq<T>, n: nat): seq<T> {
    if n <= |s| then s[..n] else s
  }

  /** n copies of one value. */
  function Repeat<T>(x: T, n: nat): (r: seq<T>)
    ensures |r| == n && forall k :: 0 <= k < n ==> r[k] == x
  {
    seq(n, _ => x)
  }

  /** A region with some bytes of it replaced. */
  function Stored(m: seq<Byte>, at: nat, bytes: seq<Byte>): (r: seq<Byte>)
    requires at + |bytes| <= |m|
    ensures |r| == |m|
    ensures forall j :: 0 <= j < |m| ==> r[j] == if at <= j < at + |bytes| then bytes[j - at] else m[j]
  {
    m[..at] + bytes + m[at + |bytes|..]
  }

  /** A string put into memory with its NUL is the string that starts there. */
  lemma StoredString(m: seq<Byte>, at: nat, chars: seq<Byte>, m': seq<Byte>)
    requires NUL !in chars && at + |chars| < |m| && m' == Stored(m, at, chars + [NUL])
    ensures Terminated(m'[at..]) && CStr(m'[at..]) == chars
  {
    var s := m'[at..];
    assert s[..|chars|] == chars;
    CStrIs(s, |chars|);
  }
}
