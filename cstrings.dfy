/**
 * The C library string routines the shell relies on, over a buffer of
 * characters: a C string starts at an index and ends at the first NUL.
 */
module CStrings {
  import opened Wrappers

  const NUL: char := '\0'

  /** s[p..] holds a NUL terminator, so the C string at p is well defined. */
  predicate Terminated(s: seq<char>, p: nat) {
    exists j :: p <= j < |s| && s[j] == NUL
  }

  /** strlen(s + p): the number of characters before the first NUL at or after p. */
  function StrLen(s: seq<char>, p: nat): (n: nat)
    requires Terminated(s, p)
    ensures p + n < |s| && s[p + n] == NUL
    ensures forall j :: p <= j < p + n ==> s[j] != NUL
    decreases |s| - p
  {
    if s[p] == NUL then 0 else StrLen(s, p + 1) + 1
  }

  /** The C string that starts at p, without its terminator. */
  function CStr(s: seq<char>, p: nat): (r: string)
    requires Terminated(s, p)
    ensures |r| == StrLen(s, p) && NUL !in r
    ensures forall j :: 0 <= j < |r| ==> r[j] == s[p + j]
  {
    s[p..p + StrLen(s, p)]
  }

  /** A NUL at p + n with none before it makes n the length of the C string at p. */
  lemma StrLenIs(b: seq<char>, p: nat, n: nat)
    requires p + n < |b| && b[p + n] == NUL
    requires forall j :: p <= j < p + n ==> b[j] != NUL
    ensures Terminated(b, p) && StrLen(b, p) == n && CStr(b, p) == b[p..p + n]
  {
    assert Terminated(b, p);
  }

  /** A string w written at p and followed by a NUL reads back from p as w. */
  lemma CStrIs(b: seq<char>, p: nat, w: seq<char>)
    requires p + |w| < |b| && b[p + |w|] == NUL
    requires forall j :: 0 <= j < |w| ==> b[p + j] == w[j] && w[j] != NUL
    ensures Terminated(b, p) && CStr(b, p) == w
  {
    forall x | p <= x < p + |w|
      ensures b[x] != NUL
    {
      assert b[x] == w[x - p];
    }
    StrLenIs(b, p, |w|);
    assert b[p..p + |w|] == w;
  }

  /**
   * strchr(s + p, c): the first index at or after p holding c, looking no
   * further than the terminator (which is found when c is NUL itself).
   */
  function StrChr(s: seq<char>, p: nat, c: char): (r: Option<nat>)
    requires Terminated(s, p)
    ensures r.Some? ==> p <= r.value <= p + StrLen(s, p) && s[r.value] == c
    ensures r.Some? ==> forall j :: p <= j < r.value ==> s[j] != c
    ensures r.None? <==> forall j :: p <= j <= p + StrLen(s, p) ==> s[j] != c
    decreases |s| - p
  {
    if s[p] == c then Some(p)
    else if s[p] == NUL then None
    else StrChr(s, p + 1, c)
  }

  /** strncmp(s + p, t + q, n) == 0: the two strings agree on at most n characters, stopping after a NUL. */
  function StrNEq(s: seq<char>, p: nat, t: seq<char>, q: nat, n: nat): bool
    requires Terminated(s, p) && Terminated(t, q)
    decreases n
  {
    if n == 0 then true
    else if s[p] != t[q] then false
    else if s[p] == NUL then true
    else StrNEq(s, p + 1, t, q + 1, n - 1)
  }

  /** The first n characters strncmp looks at: the string, then its terminator, cut at n. */
  function Window(r: string, n: nat): seq<char> {
    var w := r + [NUL];
    if n <= |w| then w[..n] else w
  }

  /** strncmp returning 0 means exactly that both strings show the same window of n characters. */
  lemma {:induction false} StrNEqMeaning(s: seq<char>, p: nat, t: seq<char>, q: nat, n: nat)
    requires Terminated(s, p) && Terminated(t, q)
    ensures StrNEq(s, p, t, q, n) <==> Window(CStr(s, p), n) == Window(CStr(t, q), n)
    decreases n
  {
    if n == 0 {
      assert Window(CStr(s, p), 0) == [] == Window(CStr(t, q), 0);
    } else if s[p] != t[q] {
      assert Window(CStr(s, p), n)[0] == s[p];
      assert Window(CStr(t, q), n)[0] == t[q];
      assert !StrNEq(s, p, t, q, n);
    } else if s[p] == NUL {
      assert CStr(s, p) == [] && CStr(t, q) == [];
      assert StrNEq(s, p, t, q, n);
    } else {
      CStrCons(s, p);
      CStrCons(t, q);
      WindowCons(s[p], CStr(s, p + 1), n);
      WindowCons(t[q], CStr(t, q + 1), n);
      StrNEqMeaning(s, p + 1, t, q + 1, n - 1);
      ConsEq(s[p], Window(CStr(s, p + 1), n - 1), Window(CStr(t, q + 1), n - 1));
      assert StrNEq(s, p, t, q, n) == StrNEq(s, p + 1, t, q + 1, n - 1);
    }
  }

  /** A C string that does not start with its terminator is its first character and the C string after it. */
  lemma CStrCons(s: seq<char>, p: nat)
    requires Terminated(s, p) && s[p] != NUL
    ensures Terminated(s, p + 1) && CStr(s, p) == [s[p]] + CStr(s, p + 1)
  {
    assert Terminated(s, p + 1) by {
      assert s[p + StrLen(s, p)] == NUL;
    }
    assert CStr(s, p) == [s[p]] + CStr(s, p + 1);
  }

  lemma WindowCons(c: char, r: string, n: nat)
    requires n > 0
    ensures Window([c] + r, n) == [c] + Window(r, n - 1)
  {
    assert [c] + r + [NUL] == [c] + (r + [NUL]);
  }

  lemma ConsEq(c: char, u: seq<char>, v: seq<char>)
    ensures [c] + u == [c] + v <==> u == v
  {
    if [c] + u == [c] + v {
      assert u == ([c] + u)[1..] == ([c] + v)[1..] == v;
    }
  }

  /** The number of occurrences of c in s. */
  function Count(s: seq<char>, c: char): (n: nat)
    ensures n <= |s|
  {
    if s == [] then 0
    else (if s[0] == c then 1 else 0) + Count(s[1..], c)
  }

  /** A character occurs nowhere exactly when its count is zero. */
  lemma {:induction false} CountZero(s: seq<char>, c: char)
    ensures Count(s, c) == 0 <==> c !in s
  {
    if s != [] {
      assert s == [s[0]] + s[1..];
      CountZero(s[1..], c);
    }
  }

  lemma {:induction false} CountAppend(a: seq<char>, b: seq<char>, c: char)
    ensures Count(a + b, c) == Count(a, c) + Count(b, c)
  {
    if a == [] {
      assert a + b == b;
    } else {
      assert (a + b)[0] == a[0];
      assert (a + b)[1..] == a[1..] + b;
      CountAppend(a[1..], b, c);
    }
  }
}
