/** The string routines of lib/lib.c over NUL-terminated regions. */
module CStrings {
  import opened Bytes

  method Strlen(s: seq<Byte>) returns (len: nat)
    requires Terminated(s)
    ensures len == |CStr(s)|
  {
    len := 0;
    while s[len] != NUL
      invariant len <= |CStr(s)|
      decreases |s| - len
    {
      len := len + 1;
    }
  }

  /** Zero exactly when the strings agree on their first n characters; otherwise the signed
      difference at the first place where they part. */
  method Strncmp(s1: seq<Byte>, s2: seq<Byte>, n: nat) returns (r: int)
    requires Terminated(s1) && Terminated(s2)
    ensures r == 0 <==> Take(CStr(s1), n) == Take(CStr(s2), n)
    ensures r != 0 ==> exists k :: 0 <= k < n && k < |s1| && k < |s2| && s1[..k] == s2[..k]
                                   && s1[k] != s2[k] && r == Signed(s1[k]) - Signed(s2[k])
  {
    var c1, c2 := CStr(s1), CStr(s2);
    var i := 0;
    while i < n
      invariant 0 <= i <= n && i <= |c1| && i <= |c2|
      invariant s1[..i] == s2[..i] && c1[..i] == c2[..i]
    {
      assert i < |c1| ==> s1[i] == c1[i] != NUL;
      assert i < |c2| ==> s2[i] == c2[i] != NUL;
      if s1[i] != s2[i] || s1[i] == NUL {
        if s1[i] != s2[i] {
          if i < |c1| && i < |c2| {
            assert Take(c1, n)[i] != Take(c2, n)[i];
          }
        }
        return Signed(s1[i]) - Signed(s2[i]);
      }
      i := i + 1;
    }
    return 0;
  }

  /** Copies the string with its NUL to address `at` and leaves the rest of the memory alone. */
  method Strcpy(mem: array<Byte>, at: nat, src: seq<Byte>)
    requires Terminated(src) && at + |CStr(src)| < mem.Length
    modifies mem
    ensures mem[..] == Stored(old(mem[..]), at, CStr(src) + [NUL])
  {
    ghost var c := CStr(src);
    var i := 0;
    while src[i] != NUL
      invariant 0 <= i <= |c|
      invariant forall k :: at <= k < at + i ==> mem[k] == c[k - at]
      invariant forall k :: 0 <= k < mem.Length && !(at <= k < at + i) ==> mem[k] == old(mem[k])
      decreases |src| - i
    {
      mem[at + i] := src[i];
      i := i + 1;
    }
    mem[at + i] := NUL;
  }

  /** Exactly n bytes: at most n characters of the string, then NULs. There is no final NUL when the
      string has n characters or more. */
  method Strncpy(mem: array<Byte>, at: nat, src: seq<Byte>, n: nat)
    requires Terminated(src) && at + n <= mem.Length
    modifies mem
    ensures mem[..] == Stored(old(mem[..]), at, Padded(CStr(src), n))
  {
    ghost var c := CStr(src);
    var i := 0;
    while src[i] != NUL && i < n
      invariant 0 <= i <= n && i <= |c|
      invariant forall k :: at <= k < at + i ==> mem[k] == c[k - at]
      invariant forall k :: 0 <= k < mem.Length && !(at <= k < at + i) ==> mem[k] == old(mem[k])
      decreases n - i
    {
      mem[at + i] := src[i];
      i := i + 1;
    }
    ghost var copied := i;
    while i < n
      invariant copied <= i <= n
      invariant forall k :: at <= k < at + copied ==> mem[k] == c[k - at]
      invariant forall k :: at + copied <= k < at + i ==> mem[k] == NUL
      invariant forall k :: 0 <= k < mem.Length && !(at <= k < at + i) ==> mem[k] == old(mem[k])
    {
      mem[at + i] := NUL;
      i := i + 1;
    }
  }

  function Padded(chars: seq<Byte>, n: nat): (r: seq<Byte>)
    ensures |r| == n
  {
    Take(chars, n) + Repeat(NUL, n - |Take(chars, n)|)
  }

  /** Byte by byte: the characters, then NULs. */
  lemma PaddedAt(chars: seq<Byte>, n: nat, k: nat)
    requires k < n
    ensures Padded(chars, n)[k] == if k < |chars| then chars[k] else 0
  {
  }

  /** Characters are signed: bytes from 128 on are negative. */
  lemma SignedIs(b: Byte)
    ensures -128 <= Signed(b) <= 127 && (Signed(b) == b || Signed(b) == b - 256)
  {
  }

  /** What a copy of n bytes preserves: a string shorter than n comes back whole, and a longer one
      loses exactly its tail and its terminator. */
  lemma PaddedReadsBack(chars: seq<Byte>, n: nat)
    requires NUL !in chars
    ensures Terminated(Padded(chars, n)) <==> |chars| < n
    ensures |chars| < n ==> CStr(Padded(chars, n)) == chars
    ensures |chars| >= n ==> Padded(chars, n) == chars[..n]
  {
    var p := Padded(chars, n);
    if |chars| < n {
      assert p[..|chars|] == chars;
      CStrIs(p, |chars|);
    }
  }
}
