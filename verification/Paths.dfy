/** Tokenizing: `strtok` of string.c, `parse_path` of vfs.c, and the splitting they refine. */
module Paths {
  import opened Machine
  import opened CString

  type Name = seq<Byte>
  type Path = seq<Name>

  const SLASH: Byte := 0x2F
  const SLASH_STRING: seq<Byte> := [SLASH, 0]
  const MAX_FILENAME := 256
  const MAX_PATH := 1024
  const MAX_COMPONENTS := 16

  // ---------------------------------------------------------------- splitting

  /** `s` cut at every byte of `d`, empty pieces dropped. */
  function Split(s: seq<Byte>, d: seq<Byte>): (r: seq<Name>)
    ensures |r| <= |s|
    ensures s != [] && s[0] !in d ==> r != []
    decreases |s|
  {
    if s == [] then []
    else
      var rest := Split(s[1..], d);
      if s[0] in d then rest
      else if |s| == 1 || s[1] in d then [[s[0]]] + rest
      else [[s[0]] + rest[0]] + rest[1..]
  }

  ghost predicate TokenOf(t: Name, d: seq<Byte>) {
    t != [] && forall i :: 0 <= i < |t| ==> t[i] !in d
  }

  /** Every piece is a non-empty, delimiter-free string made of bytes of `s`. */
  lemma {:induction false} SplitTokens(s: seq<Byte>, d: seq<Byte>)
    ensures forall k :: 0 <= k < |Split(s, d)| ==> TokenOf(Split(s, d)[k], d)
    ensures forall k, b :: 0 <= k < |Split(s, d)| && b in Split(s, d)[k] ==> b in s
    decreases |s|
  {
    if s != [] {
      SplitTokens(s[1..], d);
      forall k, b | 0 <= k < |Split(s, d)| && b in Split(s, d)[k] ensures b in s {
        assert s[0] in s;
        assert forall x :: x in s[1..] ==> x in s;
      }
    }
  }

  /** A leading run of non-delimiters that a delimiter (or the end) closes is the first piece. */
  lemma {:induction false} SplitFirst(s: seq<Byte>, d: seq<Byte>, n: nat)
    requires 0 < n <= |s| && TokenOf(s[..n], d)
    requires n == |s| || s[n] in d
    ensures Split(s, d) == [s[..n]] + Split(s[n..], d)
    decreases n
  {
    assert s[..n][0] == s[0];
    if n == 1 {
      assert s[..1] == [s[0]];
    } else {
      assert s[..n][1] == s[1];
      assert s[1..][..n - 1] == s[..n][1..];
      SplitFirst(s[1..], d, n - 1);
      assert s[1..][n - 1..] == s[n..];
      assert [s[0]] + s[1..][..n - 1] == s[..n];
    }
  }

  /** Leading delimiters do not matter. */
  lemma {:induction false} SplitSkip(s: seq<Byte>, d: seq<Byte>, n: nat)
    requires n <= |s| && forall i :: 0 <= i < n ==> s[i] in d
    ensures Split(s, d) == Split(s[n..], d)
    decreases n
  {
    if n > 0 {
      SplitSkip(s[1..], d, n - 1);
      assert s[1..][n - 1..] == s[n..];
    } else {
      assert s[0..] == s;
    }
  }

  /** A delimiter separates: with `SplitEmpty` and `SplitWord` this law determines `Split`. */
  lemma {:induction false} SplitConcat(a: seq<Byte>, c: Byte, b: seq<Byte>, d: seq<Byte>)
    requires c in d
    ensures Split(a + [c] + b, d) == Split(a, d) + Split(b, d)
    decreases |a|
  {
    if a == [] {
      assert ([c] + b)[1..] == b;
      assert a + [c] + b == [c] + b;
    } else {
      assert (a + [c] + b)[1..] == a[1..] + [c] + b;
      SplitConcat(a[1..], c, b, d);
    }
  }

  lemma SplitWord(t: Name, d: seq<Byte>)
    requires TokenOf(t, d)
    ensures Split(t, d) == [t]
  {
    assert t[..|t|] == t;
    SplitFirst(t, d, |t|);
  }

  /** Any function with the three laws is `Split`. */
  lemma {:induction false} SplitDetermined(f: seq<Byte> -> seq<Name>, s: seq<Byte>, d: seq<Byte>)
    requires f([]) == []
    requires forall t :: TokenOf(t, d) ==> f(t) == [t]
    requires forall a, c, b :: c in d ==> f(a + [c] + b) == f(a) + f(b)
    ensures f(s) == Split(s, d)
    decreases |s|
  {
    if s == [] {
    } else if i :| 0 <= i < |s| && s[i] in d {
      assert s == s[..i] + [s[i]] + s[i + 1..];
      SplitDetermined(f, s[..i], d);
      SplitDetermined(f, s[i + 1..], d);
      SplitConcat(s[..i], s[i], s[i + 1..], d);
    } else {
      assert TokenOf(s, d);
      SplitWord(s, d);
    }
  }

  /** The pieces are the maximal delimiter-free runs, in order of position. */
  lemma MaximalRunIsPiece(s: seq<Byte>, d: seq<Byte>, i: nat, j: nat)
    requires i < j <= |s| && TokenOf(s[i..j], d)
    requires (i == 0 || s[i - 1] in d) && (j == |s| || s[j] in d)
    ensures Split(s, d) == Split(s[..i], d) + [s[i..j]] + Split(s[j..], d)
  {
    hide Split;
    assert s[i..][..j - i] == s[i..j];
    assert s[i..][j - i..] == s[j..];
    SplitFirst(s[i..], d, j - i);
    if i == 0 {
      assert s[0..] == s;
    } else {
      var a := s[..i - 1];
      assert s == a + [s[i - 1]] + s[i..];
      SplitConcat(a, s[i - 1], s[i..], d);
      assert s[..i] == a + [s[i - 1]] + [];
      SplitConcat(a, s[i - 1], [], d);
    }
  }

  // ---------------------------------------------------------------- paths as text

  /** A file name as the sources require it: what `strtok` can produce and `char name[256]` can hold. */
  ghost predicate ValidName(n: Name) {
    TokenOf(n, [SLASH]) && 0 !in n && |n| < MAX_FILENAME
  }

  function Prefix(p: Path): (r: Path) {
    if |p| <= MAX_COMPONENTS then p else p[..MAX_COMPONENTS]
  }

  /** What `parse_path` makes of a path: its components, silently cut to sixteen. */
  function Parse(path: seq<Byte>): Path {
    Prefix(Split(path, [SLASH]))
  }

  /** The path with the leading slashes that `parse_path` skips before it copies. */
  function LeadingSlashes(s: seq<Byte>): (n: nat)
    ensures n <= |s| && forall i :: 0 <= i < n ==> s[i] == SLASH
    ensures n < |s| ==> s[n] != SLASH
  {
    if s == [] || s[0] != SLASH then 0 else 1 + LeadingSlashes(s[1..])
  }

  /** The path fits the buffers of vfs.h: 1024 bytes for the copy, 256 for each stored name. */
  ghost predicate Fits(path: seq<Byte>) {
    && |path| - LeadingSlashes(path) < MAX_PATH
    && forall k :: 0 <= k < |Parse(path)| ==> |Parse(path)[k]| < MAX_FILENAME
  }

  lemma ParseNames(path: seq<Byte>)
    requires 0 !in path && Fits(path)
    ensures forall k :: 0 <= k < |Parse(path)| ==> ValidName(Parse(path)[k])
  {
    SplitTokens(path, [SLASH]);
  }

  function Join(p: Path): seq<Byte> {
    if p == [] then [] else [SLASH] + p[0] + Join(p[1..])
  }

  /** Splitting undoes joining. */
  lemma {:induction false} SplitJoin(p: Path)
    requires forall k :: 0 <= k < |p| ==> TokenOf(p[k], [SLASH])
    ensures Split(Join(p), [SLASH]) == p
    decreases |p|
  {
    if p != [] {
      SplitJoin(p[1..]);
      SplitWord(p[0], [SLASH]);
      if |p| == 1 {
        assert Join(p) == [] + [SLASH] + p[0];
        SplitConcat([], SLASH, p[0], [SLASH]);
      } else {
        var rest := p[1] + Join(p[2..]);
        assert p[1..][1..] == p[2..];
        assert Join(p[1..]) == [SLASH] + rest;
        assert Join(p) == [] + [SLASH] + (p[0] + [SLASH] + rest);
        SplitConcat([], SLASH, p[0] + [SLASH] + rest, [SLASH]);
        SplitConcat(p[0], SLASH, rest, [SLASH]);
        SplitSkip(Join(p[1..]), [SLASH], 1);
        assert Join(p[1..])[1..] == rest;
      }
    }
  }

  /** A path of at most sixteen components parses back to them; a longer one to its first sixteen. */
  lemma ParseJoin(p: Path)
    requires forall k :: 0 <= k < |p| ==> TokenOf(p[k], [SLASH])
    ensures Parse(Join(p)) == Prefix(p)
    ensures Parse(Join(p)) == p <==> |p| <= 16
  {
    SplitJoin(p);
  }

  /** Doubling a slash, or adding one at either end, changes nothing. */
  lemma ExtraSlashes(a: seq<Byte>, b: seq<Byte>)
    ensures Parse(a + [SLASH] + [SLASH] + b) == Parse(a + [SLASH] + b)
    ensures Parse([SLASH] + a) == Parse(a) == Parse(a + [SLASH])
  {
    var d := [SLASH];
    SplitConcat(a, SLASH, [SLASH] + b, d);
    SplitConcat(a, SLASH, b, d);
    SplitSkip([SLASH] + b, d, 1);
    assert ([SLASH] + b)[1..] == b;
    assert a + [SLASH] + [SLASH] + b == a + [SLASH] + ([SLASH] + b);
    SplitSkip([SLASH] + a, d, 1);
    assert ([SLASH] + a)[1..] == a;
    SplitConcat(a, SLASH, [], d);
    assert a + [SLASH] + [] == a + [SLASH];
  }

  // ---------------------------------------------------------------- strtok

  /** The static pointer `last` of `strtok`: a buffer and a position in it. */
  class Tokenizer {
    var buf: array?<Byte>
    var last: nat

    constructor ()
      ensures buf == null
    {
      buf, last := null, 0;
    }

    /** The string that a call with argument `str` goes on with, and where it goes on. */
    ghost function Target(str: array?<Byte>): array?<Byte>
      reads this
    {
      if str != null then str else buf
    }

    static ghost function Content(b: array?<Byte>): seq<Byte>
      reads b
    {
      if b == null then [] else b[..]
    }

    ghost function Start(str: array?<Byte>): nat
      reads this
    {
      if str != null then 0 else last
    }

    /** `str` is the string to cut on the first call and NULL afterwards; the token is returned as its position. */
    method Strtok(str: array?<Byte>, delim: seq<Byte>) returns (tok: Option<nat>)
      requires Terminated(delim, 0)
      requires Target(str) != null ==> Terminated(Target(str)[..], Start(str))
      modifies this, if Target(str) != null then {Target(str)} else {}
      ensures buf == old(Target(str))
      ensures buf == null ==> tok == None
      ensures buf != null ==> Cut(old(Content(Target(str))), old(Start(str)), Text(delim, 0), Content(buf), last, tok)
    {
      hide Split, End, Cut;
      if str != null {
        buf, last := str, 0;
      }
      if buf == null {
        return None;
      }
      var b: array<Byte> := buf;
      ghost var s, start := b[..], last;
      // skip delimiters
      last := Span(b, last, delim, true);
      ghost var first := last;
      EndFrom(s, start, first);
      if b[last] == 0 {
        CutNothing(s, start, Text(delim, 0));
        return None;
      }
      tok := Some(last);
      // find the end of the token
      last := Span(b, last, delim, false);
      ghost var stop := last;
      CutPieces(s, start, first, stop, Text(delim, 0));
      if b[last] != 0 {
        b[last] := 0;
        last := last + 1;
      }
      CutWrites(s, start, first, stop, Text(delim, 0), b[..], last);
    }
  }

  /** The two scanning loops of `strtok`: from `p` over delimiters, or over non-delimiters. */
  method Span(b: array<Byte>, p: nat, delim: seq<Byte>, over: bool) returns (q: nat)
    requires Terminated(delim, 0) && Terminated(b[..], p)
    ensures p <= q <= End(b[..], p)
    ensures forall i :: p <= i < q ==> (b[i] in Text(delim, 0) <==> over)
    ensures b[q] != 0 ==> (b[q] in Text(delim, 0) <==> !over)
    ensures b[q] == 0 <==> q == End(b[..], p)
  {
    q := p;
    while true
      invariant p <= q <= End(b[..], p)
      invariant forall i :: p <= i < q ==> (b[i] in Text(delim, 0) <==> over)
      decreases b.Length - q
    {
      if b[q] == 0 { return; }
      var c := Strchr(delim, b[q]);
      if c.Some? != over { return; }
      q := q + 1;
    }
  }

  /** What one call of `strtok` does to the string at `start`: the first piece is handed out and terminated in place. */
  ghost predicate Cut(s: seq<Byte>, start: nat, d: seq<Byte>, s': seq<Byte>, last: nat, tok: Option<nat>) {
    && |s| == |s'| && start <= |s|
    && Terminated(s', last)
    && var pieces := Split(Text(s, start), d);
      match tok
      case None =>
        s' == s && pieces == [] == Split(Text(s', last), d)
      case Some(p) =>
        && pieces != [] && start <= p < last + 1
        && Terminated(s', p) && End(s', p) <= last
        && Text(s', p) == pieces[0]
        && Split(Text(s', last), d) == pieces[1..]
        && forall i :: 0 <= i < |s| && i != End(s', p) ==> s'[i] == s[i]
  }

  lemma CutNothing(s: seq<Byte>, start: nat, d: seq<Byte>)
    requires Terminated(s, start) && forall i :: start <= i < End(s, start) ==> s[i] in d
    ensures Cut(s, start, d, s, End(s, start), None)
  {
    var e := End(s, start);
    SplitSkip(Text(s, start), d, e - start);
    EndUnique(s, e, e);
  }

  lemma CutWrites(s: seq<Byte>, start: nat, first: nat, stop: nat, d: seq<Byte>, s': seq<Byte>, last: nat)
    requires Terminated(s, start) && start <= first < stop <= End(s, start)
    requires Split(Text(s, start), d)
      == [s[first..stop]] + Split(s[if stop < End(s, start) then stop + 1 else stop..End(s, start)], d)
    requires if s[stop] == 0 then s' == s && last == stop else s' == s[stop := 0] && last == stop + 1
    ensures Cut(s, start, d, s', last, Some(first))
  {
    var e := End(s, start);
    EndFrom(s, start, stop);
    EndUnique(s', first, stop);
    EndUnique(s', last, e);
    assert Text(s', first) == s[first..stop];
    assert Text(s', last) == s[last..e];
  }

  lemma CutPieces(s: seq<Byte>, start: nat, first: nat, stop: nat, d: seq<Byte>)
    requires start <= |s| && Terminated(s, start)
    requires start <= first < stop <= End(s, start)
    requires forall i :: start <= i < first ==> s[i] in d
    requires forall i :: first <= i < stop ==> s[i] !in d
    requires stop == End(s, start) || s[stop] in d
    ensures Split(Text(s, start), d)
      == [s[first..stop]] + Split(s[if stop < End(s, start) then stop + 1 else stop..End(s, start)], d)
  {
    hide Split;
    var e := End(s, start);
    SplitSkip(Text(s, start), d, first - start);
    assert Text(s, start)[first - start..] == s[first..e];
    assert s[first..e][..stop - first] == s[first..stop];
    assert s[first..e][stop - first..] == s[stop..e];
    SplitFirst(s[first..e], d, stop - first);
    if stop < e {
      SplitSkip(s[stop..e], d, 1);
      assert s[stop..e][1..] == s[stop + 1..e];
    }
  }

  lemma EndFrom(s: seq<Byte>, p: nat, q: nat)
    requires p <= q <= |s| && Terminated(s, p) && q <= End(s, p)
    ensures End(s, q) == End(s, p)
  {
    EndUnique(s, q, End(s, p));
  }

  // ---------------------------------------------------------------- parse_path

  /** `path` is a C string; the components are returned by value. */
  method ParsePath(path: seq<Byte>) returns (components: Path)
    requires Terminated(path, 0) && Fits(Text(path, 0))
    ensures components == Parse(Text(path, 0))
  {
    components := [];
    var p := 0;
    while path[p] == SLASH
      invariant 0 <= p <= End(path, 0)
      invariant forall i :: 0 <= i < p ==> path[i] == SLASH
      decreases |path| - p
    {
      p := p + 1;
    }
    SkipSlashes(path, p);
    if path[p] == 0 {
      return;
    }
    var buffer := new Byte[MAX_PATH];
    Strcpy(buffer, path, p);
    components := CopyTokens(buffer);
  }

  /** The token loop of `parse_path`, which cuts `buffer` up. */
  method CopyTokens(buffer: array<Byte>) returns (components: Path)
    requires Terminated(buffer[..], 0)
    modifies buffer
    ensures components == Parse(old(Text(buffer[..], 0)))
  {
    hide Split, End, Text, Cut, Pending, Prefix;
    SlashString();
    components := [];
    var tk := new Tokenizer();
    ghost var s := buffer[..];
    ghost var all := Split(Text(s, 0), [SLASH]);
    var token := tk.Strtok(buffer, SLASH_STRING);
    CutFirst(s, buffer[..], tk.last, token);
    ghost var rest := all;
    while token.Some? && |components| < MAX_COMPONENTS
      invariant fresh(tk) && tk.buf == buffer
      invariant Pending(buffer[..], tk.last, token, rest)
      invariant all == components + rest && |components| <= MAX_COMPONENTS
      decreases MAX_COMPONENTS - |components|
    {
      PendingFacts(buffer[..], tk.last, token, rest);
      components := components + [Text(buffer[..], token.value)];
      s := buffer[..];
      ghost var last := tk.last;
      ghost var token0 := token;
      token := tk.Strtok(null, SLASH_STRING);
      CutNext(s, last, token0, rest, buffer[..], tk.last, token);
      rest := rest[1..];
    }
    PendingFacts(buffer[..], tk.last, token, rest);
    PrefixOf(components, rest);
  }

  lemma SlashString()
    ensures Terminated(SLASH_STRING, 0) && Text(SLASH_STRING, 0) == [SLASH]
  {
    EndUnique(SLASH_STRING, 0, 1);
  }

  /** `rest` is the token in hand, if any, and what is still to be cut. */
  ghost predicate Pending(s: seq<Byte>, last: nat, token: Option<nat>, rest: seq<Name>) {
    && Terminated(s, last)
    && match token
       case None => rest == []
       case Some(p) => Terminated(s, p) && rest == [Text(s, p)] + Split(Text(s, last), [SLASH])
  }

  lemma PendingFacts(s: seq<Byte>, last: nat, token: Option<nat>, rest: seq<Name>)
    requires Pending(s, last, token, rest)
    ensures Terminated(s, last) && last <= |s|
    ensures token == None ==> rest == []
    ensures token.Some? ==>
      Terminated(s, token.value) && token.value <= |s| && rest != [] && rest[0] == Text(s, token.value)
  {
  }

  lemma CutFirst(s: seq<Byte>, s': seq<Byte>, last: nat, token: Option<nat>)
    requires Terminated(s, 0) && Cut(s, 0, [SLASH], s', last, token)
    ensures Pending(s', last, token, Split(Text(s, 0), [SLASH]))
  {
  }

  lemma CutNext(s: seq<Byte>, last: nat, token: Option<nat>, rest: seq<Name>,
                s': seq<Byte>, last': nat, token': Option<nat>)
    requires Pending(s, last, token, rest) && token.Some? && rest != []
    requires Cut(s, last, [SLASH], s', last', token')
    ensures Pending(s', last', token', rest[1..])
  {
  }

  lemma PrefixOf(components: Path, rest: Path)
    requires |components| <= MAX_COMPONENTS && (rest == [] || |components| == MAX_COMPONENTS)
    ensures components == Prefix(components + rest)
  {
  }

  lemma SkipSlashes(path: seq<Byte>, p: nat)
    requires Terminated(path, 0) && p <= End(path, 0)
    requires (forall i :: 0 <= i < p ==> path[i] == SLASH) && path[p] != SLASH
    ensures Terminated(path, p) && End(path, p) == End(path, 0)
    ensures Parse(Text(path, 0)) == Parse(Text(path, p))
    ensures LeadingSlashes(Text(path, 0)) == p
    ensures path[p] == 0 ==> Parse(Text(path, 0)) == []
  {
    EndFrom(path, 0, p);
    SplitSkip(Text(path, 0), [SLASH], p);
    assert Text(path, 0)[p..] == Text(path, p);
    SlashCount(Text(path, 0), p);
  }

  lemma SlashCount(s: seq<Byte>, n: nat)
    requires n <= |s| && (forall i :: 0 <= i < n ==> s[i] == SLASH) && (n == |s| || s[n] != SLASH)
    ensures LeadingSlashes(s) == n
  {
    if n > 0 {
      SlashCount(s[1..], n - 1);
    }
  }
}
