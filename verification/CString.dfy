/** The routines of string.c, over NUL-terminated byte buffers. */
module CString {
  import opened Machine

  // ---------------------------------------------------------------- C strings

  /** Index of the first NUL at or after `p`; |s| when there is none. */
  function End(s: seq<Byte>, p: nat): (e: nat)
    requires p <= |s|
    ensures p <= e <= |s|
    ensures forall i :: p <= i < e ==> s[i] != 0
    ensures e < |s| ==> s[e] == 0
    decreases |s| - p
  {
    if p == |s| || s[p] == 0 then p else End(s, p + 1)
  }

  /** A C string may be read from `p`: a NUL follows. */
  predicate Terminated(s: seq<Byte>, p: nat) {
    p <= |s| && End(s, p) < |s|
  }

  /** The bytes of the C string that starts at `p`, without its NUL. */
  function Text(s: seq<Byte>, p: nat): (t: seq<Byte>)
    requires p <= |s|
    ensures 0 !in t
  {
    s[p..End(s, p)]
  }

  /** The string ends at the first NUL, wherever one looks from before it. */
  lemma EndUnique(s: seq<Byte>, p: nat, e: nat)
    requires p <= e < |s| && s[e] == 0
    requires forall i :: p <= i < e ==> s[i] != 0
    ensures End(s, p) == e
  {
  }

  /** A text followed by its NUL is read back as that text. */
  lemma TextOfLiteral(t: seq<Byte>)
    requires 0 !in t
    ensures Terminated(t + [0], 0) && Text(t + [0], 0) == t
  {
    EndUnique(t + [0], 0, |t|);
  }

  // ---------------------------------------------------------------- memory blocks

  method Memset(a: array<Byte>, off: nat, c: Byte, n: nat)
    requires off + n <= a.Length
    modifies a
    ensures a[..] == old(a[..off]) + seq(n, _ => c) + old(a[off + n..])
  {
    var k := 0;
    while k < n
      invariant 0 <= k <= n
      invariant forall i :: 0 <= i < a.Length ==> a[i] == if off <= i < off + k then c else old(a[i])
    {
      a[off + k] := c;
      k := k + 1;
    }
  }

  /** As in C, source and destination must not be the same object. */
  method Memcpy(dst: array<Byte>, d: nat, src: array<Byte>, s: nat, n: nat)
    requires dst != src && d + n <= dst.Length && s + n <= src.Length
    modifies dst
    ensures dst[..] == old(dst[..d]) + src[s..s + n] + old(dst[d + n..])
  {
    var k := 0;
    while k < n
      invariant 0 <= k <= n
      invariant forall i :: 0 <= i < dst.Length ==> dst[i] == if d <= i < d + k then src[s + i - d] else old(dst[i])
    {
      dst[d + k] := src[s + k];
      k := k + 1;
    }
  }

  // ---------------------------------------------------------------- strings

  /** The result is the difference at the first position where the strings differ or both end. */
  method Strcmp(s1: seq<Byte>, s2: seq<Byte>) returns (r: int)
    requires Terminated(s1, 0) && Terminated(s2, 0)
    ensures r == 0 <==> Text(s1, 0) == Text(s2, 0)
    ensures exists k ::
      0 <= k <= End(s1, 0) && k <= End(s2, 0) && s1[..k] == s2[..k] && r == s1[k] as int - s2[k] as int
  {
    var k := 0;
    while s1[k] != 0 && s1[k] == s2[k]
      invariant 0 <= k <= End(s1, 0) && k <= End(s2, 0)
      invariant forall i :: 0 <= i < k ==> s1[i] == s2[i]
      decreases |s1| - k
    {
      k := k + 1;
    }
    r := s1[k] as int - s2[k] as int;
    assert s1[..k] == s2[..k];
    if r == 0 {
      EndUnique(s1, 0, k);
      EndUnique(s2, 0, k);
    }
  }

  /** Copies the string at `src[p..]` with its NUL to the start of `dst`. */
  method Strcpy(dst: array<Byte>, src: seq<Byte>, p: nat)
    requires Terminated(src, p) && |Text(src, p)| < dst.Length
    modifies dst
    ensures Terminated(dst[..], 0) && Text(dst[..], 0) == Text(src, p)
    ensures dst[|Text(src, p)| + 1..] == old(dst[|Text(src, p)| + 1..])
  {
    var k := 0;
    ghost var n := End(src, p) - p;
    while src[p + k] != 0
      invariant 0 <= k <= n
      invariant forall i :: 0 <= i < dst.Length ==> dst[i] == if i < k then src[p + i] else old(dst[i])
      decreases n - k
    {
      dst[k] := src[p + k];
      k := k + 1;
    }
    dst[k] := 0;
    EndUnique(dst[..], 0, n);
  }

  method Strchr(s: seq<Byte>, c: Byte) returns (r: Option<nat>)
    requires Terminated(s, 0)
    ensures c == 0 ==> r == Some(End(s, 0))
    ensures c != 0 ==> (r.Some? <==> c in Text(s, 0))
    ensures r.Some? ==> r.value <= End(s, 0) && s[r.value] == c && c !in s[..r.value]
  {
    var k := 0;
    while s[k] != 0 && s[k] != c
      invariant 0 <= k <= End(s, 0)
      invariant c !in s[..k]
      decreases |s| - k
    {
      k := k + 1;
    }
    if s[k] == 0 {
      EndUnique(s, 0, k);
    }
    if s[k] == c {
      r := Some(k);
      if c != 0 {
        assert Text(s, 0)[k] == c;
      }
    } else {
      r := None;
    }
  }
}
