/** NUL-terminated strings in a character buffer. */
module CStrings {

  datatype Option<T> = None | Some(value: T)

  const NUL := '\0'

  /** The NUL-terminated string that starts at `p` of the buffer is `s`. */
  ghost predicate IsStr(a: seq<char>, p: int, s: string) {
    && 0 <= p && p + |s| < |a| && a[p + |s|] == NUL
    && forall i :: 0 <= i < |s| ==> s[i] != NUL && a[p + i] == s[i]
  }

  lemma StrTail(a: seq<char>, p: int, s: string, i: nat)
    requires IsStr(a, p, s) && i <= |s|
    ensures IsStr(a, p + i, s[i..])
  {
    forall j | 0 <= j < |s[i..]| ensures s[i..][j] != NUL && a[p + i + j] == s[i..][j] {
      assert s[i..][j] == s[i + j];
    }
  }

  /** Overwriting a character ends the string there and leaves the rest. */
  lemma StrCut(a: seq<char>, p: int, s: string, i: nat)
    requires IsStr(a, p, s) && i < |s|
    ensures var b := a[p + i := NUL]; IsStr(b, p, s[..i]) && IsStr(b, p + i + 1, s[i + 1..])
  {
    StrTail(a, p, s, i + 1);
  }

  /** Position of the first c, or the length when there is none. */
  function Find(s: string, c: char): (n: nat)
    ensures n <= |s| && (n < |s| ==> s[n] == c)
    ensures forall i :: 0 <= i < n ==> s[i] != c
  {
    if s == "" || s[0] == c then 0 else 1 + Find(s[1..], c)
  }

  /** strchr, or the end of the string */
  method FindAt(buf: array<char>, p: nat, c: char, ghost s: string) returns (ptr: nat)
    requires IsStr(buf[..], p, s) && c != NUL
    ensures ptr == p + Find(s, c)
  {
    ptr := p;
    ghost var n := 0;
    assert s[0..] == s;
    while buf[ptr] != NUL && buf[ptr] != c
      invariant 0 <= n <= |s| && ptr == p + n && Find(s, c) == n + Find(s[n..], c)
      decreases |s| - n
    {
      assert s[n..][1..] == s[n + 1..];
      n, ptr := n + 1, ptr + 1;
    }
  }

  lemma StrChar(a: seq<char>, p: int, s: string, i: nat)
    requires IsStr(a, p, s) && i <= |s|
    ensures a[p + i] == NUL <==> i == |s|
  {
    if i < |s| { assert s[i] != NUL; }
  }

  /** ptr + strlen(ptr) */
  method StrEnd(buf: array<char>, p: nat, ghost s: string) returns (ptr: nat)
    requires IsStr(buf[..], p, s)
    ensures ptr == p + |s|
  {
    ptr := p;
    StrChar(buf[..], p, s, 0);
    while buf[ptr] != NUL
      invariant p <= ptr <= p + |s|
      invariant buf[ptr] == NUL <==> ptr == p + |s|
      decreases p + |s| - ptr
    {
      ptr := ptr + 1;
      StrChar(buf[..], p, s, ptr - p);
    }
  }
}
