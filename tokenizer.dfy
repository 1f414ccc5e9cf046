/**
 * tokenize and tokens_length from utils.c: trim blanks off a C string in
 * its own buffer, cut it at every delimiter by writing NULs, and return
 * a NULL-terminated array of pointers (here: buffer indices) to the tokens.
 */
module Tokenizer {
  import opened Wrappers
  import opened CStrings

  /** The characters tokenize trims from both ends. */
  predicate IsBlank(c: char) {
    c == ' ' || c == '\n'
  }

  predicate HasNonBlank(s: string) {
    exists k :: 0 <= k < |s| && !IsBlank(s[k])
  }

  // ---------------------------------------------------------------------
  // Trimming

  /** One past the last non-blank character of s (0 when s is all blank). */
  function TrimEnd(s: string): (n: nat)
    ensures n <= |s|
    ensures forall j :: n <= j < |s| ==> IsBlank(s[j])
    ensures 0 < n ==> !IsBlank(s[n - 1])
  {
    if s == [] then 0
    else if IsBlank(s[|s| - 1]) then TrimEnd(s[..|s| - 1])
    else |s|
  }

  /** The number of blank characters s starts with. */
  function TrimStart(s: string): (m: nat)
    ensures m <= |s|
    ensures forall j :: 0 <= j < m ==> IsBlank(s[j])
    ensures m < |s| ==> !IsBlank(s[m])
  {
    if s == [] then 0
    else if IsBlank(s[0]) then TrimStart(s[1..]) + 1
    else 0
  }

  /**
   * s without its leading and trailing blanks: a non-empty string that
   * neither starts nor ends with a blank, and s is that string with the
   * cut-off blanks put back around it.
   */
  function Trim(s: string): (t: string)
    requires HasNonBlank(s)
    ensures TrimStart(s) < TrimEnd(s) && t == s[TrimStart(s)..TrimEnd(s)]
    ensures |t| > 0 && !IsBlank(t[0]) && !IsBlank(t[|t| - 1])
  {
    var k :| 0 <= k < |s| && !IsBlank(s[k]);
    assert TrimStart(s) <= k < TrimEnd(s);
    s[TrimStart(s)..TrimEnd(s)]
  }

  /**
   * Trimming only removes the ends: s is the trimmed string with the
   * leading run of blanks before it and the trailing run after it (both
   * blank by the contracts of TrimStart and TrimEnd).
   */
  lemma TrimSurroundings(s: string)
    requires HasNonBlank(s)
    ensures s == s[..TrimStart(s)] + Trim(s) + s[TrimEnd(s)..]
  {
    SliceThree(s, TrimStart(s), TrimEnd(s));
  }

  /** s is its part before m, its part from m to n and its part from n on. */
  lemma SliceThree(s: string, m: nat, n: nat)
    requires m <= n <= |s|
    ensures s == s[..m] + s[m..n] + s[n..]
  {
  }

  /** Trimming an already trimmed string changes nothing. */
  lemma TrimIdempotent(s: string)
    requires HasNonBlank(s)
    ensures HasNonBlank(Trim(s)) && Trim(Trim(s)) == Trim(s)
  {
    var t := Trim(s);
    assert !IsBlank(t[0]);
    assert TrimStart(t) == 0 && TrimEnd(t) == |t|;
  }

  // ---------------------------------------------------------------------
  // Splitting

  /** The first index at or after from holding d, or |t| when there is none. */
  function NextDelim(t: string, from: nat, d: char): (j: nat)
    requires from <= |t|
    ensures from <= j <= |t|
    ensures j < |t| ==> t[j] == d
    ensures forall k :: from <= k < j ==> t[k] != d
    decreases |t| - from
  {
    if from == |t| || t[from] == d then from else NextDelim(t, from + 1, d)
  }

  /** The start index of every token of t[from..]: from itself, then one past each delimiter. */
  function StartsFrom(t: string, from: nat, d: char): (r: seq<nat>)
    requires from <= |t|
    ensures |r| >= 1 && r[0] == from
    decreases |t| - from
  {
    var j := NextDelim(t, from, d);
    if j == |t| then [from] else [from] + StartsFrom(t, j + 1, d)
  }

  /** The tokens of t[from..]: the pieces between consecutive delimiters. */
  function SplitFrom(t: string, from: nat, d: char): (r: seq<string>)
    requires from <= |t|
    ensures |r| >= 1
    decreases |t| - from
  {
    var j := NextDelim(t, from, d);
    if j == |t| then [t[from..]] else [t[from..j]] + SplitFrom(t, j + 1, d)
  }

  function Split(t: string, d: char): seq<string> {
    SplitFrom(t, 0, d)
  }

  /** The pieces of ws with d between each two neighbours. */
  function Join(ws: seq<string>, d: char): string {
    if |ws| == 0 then []
    else if |ws| == 1 then ws[0]
    else ws[0] + [d] + Join(ws[1..], d)
  }

  /** Joining the tokens with the delimiter gives back the string. */
  lemma {:induction false} SplitFromJoin(t: string, from: nat, d: char)
    requires from <= |t|
    ensures Join(SplitFrom(t, from, d), d) == t[from..]
    decreases |t| - from
  {
    var j := NextDelim(t, from, d);
    if j < |t| {
      var ws := SplitFrom(t, j + 1, d);
      assert SplitFrom(t, from, d) == [t[from..j]] + ws;
      SplitFromJoin(t, j + 1, d);
      JoinCons(t[from..j], ws, d);
      assert Join(SplitFrom(t, from, d), d) == t[from..j] + [d] + t[j + 1..];
      SliceAround(t, from, j);
      assert [t[j]] == [d];
    } else {
      assert SplitFrom(t, from, d) == [t[from..]];
    }
  }

  /** t[from..] is the part before j, the character at j, and the part after it. */
  lemma SliceAround(t: string, from: nat, j: nat)
    requires from <= j < |t|
    ensures t[from..] == t[from..j] + [t[j]] + t[j + 1..]
  {
  }

  /** Joining a piece in front of non-empty pieces puts one delimiter after it. */
  lemma JoinCons(w: string, rest: seq<string>, d: char)
    requires |rest| >= 1
    ensures Join([w] + rest, d) == w + [d] + Join(rest, d)
  {
    assert ([w] + rest)[1..] == rest;
  }

  /** There is one token more than there are delimiters. */
  lemma {:induction false} SplitFromCount(t: string, from: nat, d: char)
    requires from <= |t|
    ensures |SplitFrom(t, from, d)| == Count(t[from..], d) + 1
    decreases |t| - from
  {
    var j := NextDelim(t, from, d);
    GapCount(t, from, d);
    if j == |t| {
      assert t[from..] == t[from..j];
    } else {
      SplitFromCount(t, j + 1, d);
      CountAround(t, from, j, d);
    }
  }

  /** Counting across the delimiter at j when there is none between from and j. */
  lemma CountAround(t: string, from: nat, j: nat, d: char)
    requires from <= j < |t| && t[j] == d && Count(t[from..j], d) == 0
    ensures Count(t[from..], d) == 1 + Count(t[j + 1..], d)
  {
    SliceAround(t, from, j);
    CountAppend(t[from..j] + [t[j]], t[j + 1..], d);
    CountAppend(t[from..j], [t[j]], d);
    assert Count([t[j]], d) == 1 + Count([], d);
  }

  /** No delimiter lies between from and the next delimiter. */
  lemma GapCount(t: string, from: nat, d: char)
    requires from <= |t|
    ensures Count(t[from..NextDelim(t, from, d)], d) == 0
  {
    var gap := t[from..NextDelim(t, from, d)];
    assert d !in gap;
    CountZero(gap, d);
  }

  /** No token contains the delimiter. */
  lemma {:induction false} SplitFromNoDelim(t: string, from: nat, d: char)
    requires from <= |t|
    ensures forall k :: 0 <= k < |SplitFrom(t, from, d)| ==> d !in SplitFrom(t, from, d)[k]
    decreases |t| - from
  {
    var j := NextDelim(t, from, d);
    assert d !in t[from..j];
    if j < |t| {
      SplitFromNoDelim(t, j + 1, d);
    }
  }

  /**
   * The tokens are the only way to write t[from..] as delimiter-free
   * pieces joined by d; so, for instance, two adjacent delimiters yield
   * an empty token between them.
   */
  lemma {:induction false} SplitFromUnique(t: string, from: nat, d: char, ws: seq<string>)
    requires from <= |t| && |ws| >= 1
    requires forall k :: 0 <= k < |ws| ==> d !in ws[k]
    requires Join(ws, d) == t[from..]
    ensures ws == SplitFrom(t, from, d)
    decreases |ws|
  {
    if |ws| == 1 {
      LeadingPiece(t, from, d, ws[0], []);
    } else {
      assert ws == [ws[0]] + ws[1..];
      JoinCons(ws[0], ws[1..], d);
      LeadingPiece(t, from, d, ws[0], [d] + Join(ws[1..], d));
      SplitFromUnique(t, from + |ws[0]| + 1, d, ws[1..]);
    }
  }

  /** When t[from..] is a delimiter-free piece w and then nothing or a delimiter, w is its first token. */
  lemma LeadingPiece(t: string, from: nat, d: char, w: string, rest: string)
    requires from <= |t| && t[from..] == w + rest && d !in w
    requires rest == [] || rest[0] == d
    ensures NextDelim(t, from, d) == from + |w| && t[from..from + |w|] == w
    ensures rest != [] ==> t[from + |w| + 1..] == rest[1..]
  {
    var j := from + |w|;
    forall k | from <= k < j
      ensures t[k] != d
    {
      assert t[k] == (w + rest)[k - from] == w[k - from];
    }
    if rest != [] {
      assert t[j] == (w + rest)[|w|];
    }
    NextDelimAt(t, from, j, d);
  }

  /** A delimiter (or the end) at j with none from from on before it is the next delimiter. */
  lemma {:induction false} NextDelimAt(t: string, from: nat, j: nat, d: char)
    requires from <= j <= |t| && (j == |t| || t[j] == d)
    requires forall k :: from <= k < j ==> t[k] != d
    ensures NextDelim(t, from, d) == j
    decreases j - from
  {
    if from < j {
      NextDelimAt(t, from + 1, j, d);
    }
  }

  /** Adjacent delimiters yield an empty token: the one between them, after as many tokens as delimiters up to the first. */
  lemma AdjacentDelimsGiveEmptyToken(t: string, d: char, i: nat)
    requires i + 1 < |t| && t[i] == d && t[i + 1] == d
    ensures Count(t[..i + 1], d) < |Split(t, d)| && Split(t, d)[Count(t[..i + 1], d)] == ""
  {
    var left, right := t[..i], t[i + 2..];
    var pre, post := Split(left, d), Split(right, d);
    SplitFromJoin(left, 0, d);
    SplitFromJoin(right, 0, d);
    assert left[0..] == left && right[0..] == right;
    SplitFromNoDelim(left, 0, d);
    SplitFromNoDelim(right, 0, d);
    var mid := [""] + post;
    var vs := pre + mid;
    JoinAppend(pre, mid, d);
    JoinAppend([""], post, d);
    assert Join(vs, d) == left + [d] + ([] + [d] + right);
    assert t == left + [d] + ([] + [d] + right);
    assert t[0..] == t;
    assert forall k :: 0 <= k < |vs| ==> d !in vs[k];
    SplitFromUnique(t, 0, d, vs);
    assert vs[|pre|] == "";
    SplitFromCount(left, 0, d);
    assert t[..i + 1] == left + [d];
    CountAppend(left, [d], d);
    CountAppend([], [d], d);
  }

  /** Joining two non-empty lists of pieces puts one delimiter between them. */
  lemma {:induction false} JoinAppend(a: seq<string>, b: seq<string>, d: char)
    requires |a| >= 1 && |b| >= 1
    ensures Join(a + b, d) == Join(a, d) + [d] + Join(b, d)
    decreases |a|
  {
    if |a| == 1 {
      assert (a + b)[1..] == b;
    } else {
      assert (a + b)[1..] == a[1..] + b;
      JoinAppend(a[1..], b, d);
    }
  }

  /** Token k of t[from..] runs from its start index to the next delimiter. */
  lemma {:induction false} StartsAgree(t: string, from: nat, d: char)
    requires from <= |t|
    ensures |StartsFrom(t, from, d)| == |SplitFrom(t, from, d)|
    ensures forall k :: 0 <= k < |StartsFrom(t, from, d)| ==>
      StartsFrom(t, from, d)[k] <= |t| &&
      SplitFrom(t, from, d)[k] == t[StartsFrom(t, from, d)[k]..NextDelim(t, StartsFrom(t, from, d)[k], d)]
    decreases |t| - from
  {
    var j := NextDelim(t, from, d);
    var S, W := StartsFrom(t, from, d), SplitFrom(t, from, d);
    if j < |t| {
      StartsAgree(t, j + 1, d);
      var ss, ws := StartsFrom(t, j + 1, d), SplitFrom(t, j + 1, d);
      assert S == [from] + ss;
      assert W == [t[from..j]] + ws;
      AgreeCons(t, from, j, d, ss, ws, S, W);
    } else {
      assert S == [from] && W == [t[from..]];
    }
  }

  /** Putting the token that ends at j in front keeps starts and tokens in step. */
  lemma AgreeCons(t: string, from: nat, j: nat, d: char, ss: seq<nat>, ws: seq<string>, S: seq<nat>, W: seq<string>)
    requires from <= j < |t| && NextDelim(t, from, d) == j && |ss| == |ws|
    requires forall k :: 0 <= k < |ss| ==> ss[k] <= |t| && ws[k] == t[ss[k]..NextDelim(t, ss[k], d)]
    requires S == [from] + ss && W == [t[from..j]] + ws
    ensures |S| == |W|
    ensures forall k :: 0 <= k < |S| ==> S[k] <= |t| && W[k] == t[S[k]..NextDelim(t, S[k], d)]
  {
    forall k | 0 <= k < |S|
      ensures S[k] <= |t| && W[k] == t[S[k]..NextDelim(t, S[k], d)]
    {
      if k > 0 {
        assert S[k] == ss[k - 1] && W[k] == ws[k - 1];
      }
    }
  }

  // ---------------------------------------------------------------------
  // The buffer and the pointer array

  /** What strchr from index base + q reports when the buffer spells t from base on. */
  function Found(t: string, q: nat, d: char, base: nat): Option<nat>
    requires q <= |t|
  {
    var j := NextDelim(t, q, d);
    if j == |t| then None else Some(base + j)
  }

  /** strchr over the part of a buffer that still spells the trimmed string finds its next delimiter. */
  lemma {:induction false} StrChrFindsNextDelim(b: seq<char>, base: nat, t: string, q: nat, d: char)
    requires q <= |t| && base + |t| < |b| && b[base + |t|] == NUL
    requires forall j :: q <= j < |t| ==> b[base + j] == t[j] && t[j] != NUL
    requires d != NUL
    ensures Terminated(b, base + q)
    ensures StrChr(b, base + q, d) == Found(t, q, d, base)
    decreases |t| - q
  {
    assert b[base + |t|] == NUL;
    if q < |t| && t[q] != d {
      StrChrFindsNextDelim(b, base, t, q + 1, d);
    }
  }

  /**
   * A buffer character while tokenize runs: blanks outside [m, n) up to the
   * old terminator L are cleared, and the delimiters before w are cut.
   */
  function Cleared(s0: seq<char>, m: nat, w: nat, n: nat, L: nat, d: char, j: nat): char
    requires j < |s0|
  {
    if j < m || n <= j < L then NUL
    else if j < w && s0[j] == d then NUL
    else s0[j]
  }

  /** The whole buffer at one point of tokenize, character by character as Cleared says. */
  function ClearedBuffer(s0: seq<char>, m: nat, w: nat, n: nat, L: nat, d: char): (b: seq<char>)
    ensures |b| == |s0|
  {
    seq(|s0|, j requires 0 <= j < |s0| => Cleared(s0, m, w, n, L, d, j))
  }

  /** Nothing is cleared yet before the right trim. */
  lemma ClearedNothing(s0: seq<char>, L: nat, d: char)
    ensures ClearedBuffer(s0, 0, 0, L, L, d) == s0
  {
  }

  /** One step of the right trim: the last character before n is cleared. */
  lemma ClearedTrimRight(s0: seq<char>, n: nat, L: nat, d: char)
    requires 0 < n <= L < |s0|
    ensures ClearedBuffer(s0, 0, 0, n, L, d)[n - 1 := NUL] == ClearedBuffer(s0, 0, 0, n - 1, L, d)
  {
  }

  /** One step of the left trim: the first character at m is cleared. */
  lemma ClearedTrimLeft(s0: seq<char>, m: nat, n: nat, L: nat, d: char)
    requires m < n <= L < |s0|
    ensures ClearedBuffer(s0, m, 0, n, L, d)[m := NUL] == ClearedBuffer(s0, m + 1, 0, n, L, d)
  {
  }

  /** Nothing before m is left to cut once the left trim has cleared it. */
  lemma ClearedCutMark(s0: seq<char>, m: nat, n: nat, L: nat, d: char)
    ensures ClearedBuffer(s0, m, 0, n, L, d) == ClearedBuffer(s0, m, m, n, L, d)
  {
  }

  /** One cut: the delimiter at x, the first one from w on, is overwritten. */
  lemma ClearedCut(s0: seq<char>, m: nat, w: nat, n: nat, L: nat, d: char, x: nat)
    requires m <= w <= x < n <= L < |s0| && s0[x] == d
    requires forall j :: w <= j < x ==> s0[j] != d
    ensures ClearedBuffer(s0, m, w, n, L, d)[x := NUL] == ClearedBuffer(s0, m, x + 1, n, L, d)
  {
  }

  /** The buffer tokenize leaves behind. */
  function TokenizedBuffer(s0: seq<char>, d: char): (s: seq<char>)
    requires Terminated(s0, 0) && HasNonBlank(CStr(s0, 0))
    ensures |s| == |s0|
  {
    var c := CStr(s0, 0);
    var m, n := TrimStart(c), TrimEnd(c);
    ClearedBuffer(s0, m, n, n, |c|, d)
  }

  /** Every index of ps moved up by base. */
  function Shifted(ps: seq<nat>, base: nat): (r: seq<nat>)
    ensures |r| == |ps| && forall k :: 0 <= k < |ps| ==> r[k] == base + ps[k]
  {
    seq(|ps|, k requires 0 <= k < |ps| => base + ps[k])
  }

  /** The buffer indices the token pointers of tokenize hold, in order. */
  function TokenStarts(s0: seq<char>, d: char): (ps: seq<nat>)
    requires Terminated(s0, 0) && HasNonBlank(CStr(s0, 0))
  {
    var c := CStr(s0, 0);
    Shifted(StartsFrom(Trim(c), 0, d), TrimStart(c))
  }

  /** Non-NULL pointers to the given indices. */
  function Pointers(ps: seq<nat>): (r: seq<Option<nat>>)
    ensures |r| == |ps| && forall k :: 0 <= k < |ps| ==> r[k] == Some(ps[k])
  {
    seq(|ps|, k requires 0 <= k < |ps| => Some(ps[k]))
  }

  /** Inside the original buffer the trimmed string sits at TrimStart, right before the blanks and the terminator. */
  lemma TrimmedInBuffer(s0: seq<char>)
    requires Terminated(s0, 0) && HasNonBlank(CStr(s0, 0))
    ensures var c := CStr(s0, 0);
      TrimEnd(c) <= |c| < |s0| && s0[|c|] == NUL &&
      TrimStart(c) + |Trim(c)| == TrimEnd(c) &&
      forall j :: 0 <= j < |Trim(c)| ==> Trim(c)[j] == s0[TrimStart(c) + j] && Trim(c)[j] != NUL
  {
    var c := CStr(s0, 0);
    var t := Trim(c);
    forall j | 0 <= j < |t|
      ensures t[j] == s0[TrimStart(c) + j] && t[j] != NUL
    {
      assert t[j] == c[TrimStart(c) + j];
    }
  }

  /**
   * In a buffer cleared outside [m, n) and cut at every delimiter, a piece
   * t[p..e] of the trimmed string t that ends at a delimiter or at the end
   * of t reads back as a C string.
   */
  lemma ReadBackPiece(b: seq<char>, s0: seq<char>, m: nat, n: nat, L: nat, d: char, t: string, p: nat, e: nat)
    requires |b| == |s0| && m + |t| == n <= L < |s0| && s0[L] == NUL
    requires b == ClearedBuffer(s0, m, n, n, L, d)
    requires forall j :: 0 <= j < |t| ==> s0[m + j] == t[j] && t[j] != NUL
    requires p <= e <= |t| && (e < |t| ==> t[e] == d)
    requires forall j :: p <= j < e ==> t[j] != d
    ensures Terminated(b, m + p) && CStr(b, m + p) == t[p..e]
  {
    forall j | m + p <= j < m + e
      ensures b[j] == t[j - m] && b[j] != NUL
    {
      assert t[j - m] != d;
      assert b[j] == Cleared(s0, m, n, n, L, d, j);
    }
    assert b[m + e] == Cleared(s0, m, n, n, L, d, m + e);
    StrLenIs(b, m + p, e - p);
    assert forall i :: 0 <= i < e - p ==> b[m + p..m + e][i] == b[m + p + i] && t[p..e][i] == t[p + i];
    assert b[m + p..m + e] == t[p..e];
  }

  /** Token k, read back from the tokenized buffer as a C string, is token k of the trimmed string. */
  lemma TokenReadBack(s0: seq<char>, d: char, k: nat)
    requires Terminated(s0, 0) && HasNonBlank(CStr(s0, 0)) && d != NUL
    requires k < |TokenStarts(s0, d)|
    ensures k < |Split(Trim(CStr(s0, 0)), d)|
    ensures Terminated(TokenizedBuffer(s0, d), TokenStarts(s0, d)[k])
    ensures CStr(TokenizedBuffer(s0, d), TokenStarts(s0, d)[k]) == Split(Trim(CStr(s0, 0)), d)[k]
  {
    var c := CStr(s0, 0);
    var m, n, t := TrimStart(c), TrimEnd(c), Trim(c);
    var b := TokenizedBuffer(s0, d);
    TrimmedInBuffer(s0);
    var starts := StartsFrom(t, 0, d);
    StartsAgree(t, 0, d);
    var p := starts[k];
    var e := NextDelim(t, p, d);
    assert TokenStarts(s0, d)[k] == m + p;
    ReadBackPiece(b, s0, m, n, |c|, d, t, p, e);
  }

  /** The strings the returned pointers point at. */
  function TokenStrings(s0: seq<char>, d: char): (ws: seq<string>)
    requires Terminated(s0, 0) && HasNonBlank(CStr(s0, 0)) && d != NUL
    ensures ws == Split(Trim(CStr(s0, 0)), d)
  {
    var b, ps := TokenizedBuffer(s0, d), TokenStarts(s0, d);
    var t := Trim(CStr(s0, 0));
    StartsAgree(t, 0, d);
    forall k | 0 <= k < |ps|
      ensures Terminated(b, ps[k]) && CStr(b, ps[k]) == Split(t, d)[k]
    {
      TokenReadBack(s0, d, k);
    }
    seq(|ps|, k requires 0 <= k < |ps| => CStr(b, ps[k]))
  }

  /**
   * Round trip: the tokens tokenize points at, joined with the delimiter,
   * give back the trimmed string, in order; none of them contains the
   * delimiter; and there is one more of them than the trimmed string has
   * delimiters.
   */
  lemma TokenizeRoundTrip(s0: seq<char>, d: char)
    requires Terminated(s0, 0) && HasNonBlank(CStr(s0, 0)) && d != NUL
    ensures Join(TokenStrings(s0, d), d) == Trim(CStr(s0, 0))
    ensures forall k :: 0 <= k < |TokenStrings(s0, d)| ==> d !in TokenStrings(s0, d)[k]
    ensures |TokenStarts(s0, d)| == |TokenStrings(s0, d)| == Count(Trim(CStr(s0, 0)), d) + 1
  {
    var t := Trim(CStr(s0, 0));
    SplitFromJoin(t, 0, d);
    SplitFromNoDelim(t, 0, d);
    SplitFromCount(t, 0, d);
    StartsAgree(t, 0, d);
    assert t[0..] == t;
  }

  /**
   * tokens_length: the number of pointers before the first NULL of a
   * NULL-terminated pointer array.
   */
  method TokensLength<T>(tokens: seq<Option<T>>) returns (n: nat)
    requires exists k :: 0 <= k < |tokens| && tokens[k].None?
    ensures n < |tokens| && tokens[n].None?
    ensures forall k :: 0 <= k < n ==> tokens[k].Some?
  {
    ghost var last :| 0 <= last < |tokens| && tokens[last].None?;
    n := 0;
    var token := tokens[0];
    while token.Some?
      invariant n <= last && token == tokens[n]
      invariant forall k :: 0 <= k < n ==> tokens[k].Some?
      decreases last - n
    {
      n := n + 1;
      token := tokens[n];
    }
  }

  /** tokens_length of what tokenize returns is the number of tokens. */
  lemma TokensLengthOfTokenized(ps: seq<nat>, n: nat)
    requires n < |Pointers(ps) + [None]| && (Pointers(ps) + [None])[n].None?
    requires forall k :: 0 <= k < n ==> (Pointers(ps) + [None])[k].Some?
    ensures n == |ps|
  {
  }

  /**
   * tokenize(command, delim): trims the C string in a in place, cuts it at
   * every delimiter and returns the token pointers followed by NULL. The
   * string must hold a non-blank character: otherwise the right trim reads
   * before the start of the buffer.
   */
  method Tokenize(a: array<char>, d: char) returns (ret: seq<Option<nat>>)
    requires Terminated(a[..], 0) && HasNonBlank(CStr(a[..], 0))
    requires d != NUL
    modifies a
    ensures a[..] == TokenizedBuffer(old(a[..]), d)
    ensures ret == Pointers(TokenStarts(old(a[..]), d)) + [None]
  {
    ghost var s0 := a[..];
    var len := StrLen(a[..], 0);
    ghost var L := len;
    ghost var k := NonBlankAt(s0);
    var start;
    len := TrimRight(a, len, s0, k, d);
    start := TrimLeft(a, len, s0, L, k, d);
    ghost var t := Trim(CStr(s0, 0));
    TrimMarks(s0, len, start);
    TrimmedReadable(s0, t, start, len, L, d);
    var tokens := CountDelims(a, start, d, t);
    ClearedCutMark(s0, start, len, L, d);
    ret := CutTokens(a, start, tokens, d, s0, t, len, L);
  }

  /** A non-blank character of the C string, inside the string. */
  lemma NonBlankAt(s0: seq<char>) returns (k: nat)
    requires Terminated(s0, 0) && HasNonBlank(CStr(s0, 0))
    ensures k < StrLen(s0, 0) < |s0| && !IsBlank(s0[k])
  {
    var c := CStr(s0, 0);
    k :| 0 <= k < |c| && !IsBlank(c[k]);
  }

  /** The marks the two trims leave are those of TrimEnd and TrimStart, and the trimmed string sits between them. */
  lemma TrimMarks(s0: seq<char>, len: nat, start: nat)
    requires Terminated(s0, 0) && HasNonBlank(CStr(s0, 0))
    requires 0 < len <= StrLen(s0, 0) && !IsBlank(s0[len - 1])
    requires forall j :: len <= j < StrLen(s0, 0) ==> IsBlank(s0[j])
    requires start < len && !IsBlank(s0[start])
    requires forall j :: 0 <= j < start ==> IsBlank(s0[j])
    ensures len == TrimEnd(CStr(s0, 0)) && start == TrimStart(CStr(s0, 0))
    ensures TrimmedAt(s0, Trim(CStr(s0, 0)), start, len, StrLen(s0, 0))
  {
    var c := CStr(s0, 0);
    assert forall j :: 0 <= j < |c| ==> c[j] == s0[j];
    TrimmedInBuffer(s0);
  }

  /** Between the trims and the cuts the buffer spells the trimmed string, then its terminator. */
  lemma TrimmedReadable(s0: seq<char>, t: string, start: nat, len: nat, L: nat, d: char)
    requires TrimmedAt(s0, t, start, len, L)
    ensures var b := ClearedBuffer(s0, start, 0, len, L, d);
      start + |t| < |b| && b[start + |t|] == NUL &&
      forall j :: 0 <= j < |t| ==> b[start + j] == t[j] && t[j] != NUL
  {
  }

  /** The right trim of tokenize: clear trailing blanks, stopping at the last non-blank k or later. */
  method TrimRight(a: array<char>, len0: nat, ghost s0: seq<char>, ghost k: nat, ghost d: char) returns (len: nat)
    requires a[..] == s0 && len0 < a.Length && k < len0 && !IsBlank(s0[k])
    modifies a
    ensures k < len <= len0 && !IsBlank(s0[len - 1])
    ensures forall j :: len <= j < len0 ==> IsBlank(s0[j])
    ensures a[..] == ClearedBuffer(s0, 0, 0, len, len0, d)
  {
    len := len0;
    ClearedNothing(s0, len0, d);
    while a[len - 1] == '\n' || a[len - 1] == ' '
      invariant k < len <= len0
      invariant a[..] == ClearedBuffer(s0, 0, 0, len, len0, d)
      invariant forall j :: len <= j < len0 ==> IsBlank(s0[j])
      decreases len
    {
      assert a[len - 1] == s0[len - 1];
      ClearedTrimRight(s0, len, len0, d);
      a[len - 1] := NUL;
      len := len - 1;
    }
    assert a[len - 1] == s0[len - 1];
  }

  /** The left trim of tokenize: clear leading blanks and move the start past them. */
  method TrimLeft(a: array<char>, len: nat, ghost s0: seq<char>, ghost L: nat, ghost k: nat, ghost d: char)
    returns (start: nat)
    requires k < len <= L < a.Length == |s0| && !IsBlank(s0[k])
    requires a[..] == ClearedBuffer(s0, 0, 0, len, L, d)
    modifies a
    ensures start <= k && !IsBlank(s0[start])
    ensures forall j :: 0 <= j < start ==> IsBlank(s0[j])
    ensures a[..] == ClearedBuffer(s0, start, 0, len, L, d)
  {
    start := 0;
    while a[start] == '\n' || a[start] == ' '
      invariant start <= k
      invariant a[..] == ClearedBuffer(s0, start, 0, len, L, d)
      invariant forall j :: 0 <= j < start ==> IsBlank(s0[j])
      decreases len - start
    {
      assert a[start] == s0[start];
      ClearedTrimLeft(s0, start, len, L, d);
      a[start] := NUL;
      start := start + 1;
    }
    assert a[start] == s0[start];
  }

  /**
   * The counting loop of tokenize: with the trimmed string t at start and
   * its terminator after it, one more than the number of delimiters in t.
   */
  method CountDelims(a: array<char>, start: nat, d: char, ghost t: string) returns (tokens: nat)
    requires start + |t| < a.Length && a[start + |t|] == NUL && d != NUL
    requires forall j :: 0 <= j < |t| ==> a[start + j] == t[j] && t[j] != NUL
    ensures tokens == Count(t, d) + 1
  {
    tokens := 0;
    var cs := StrChrInTrimmed(a, start, d, start, t);
    ghost var q := 0;
    while cs.Some?
      invariant q <= |t| && tokens == Count(t[..q], d)
      invariant cs == Found(t, q, d, start)
      decreases |t| - q
    {
      CountStep(t, q, d);
      tokens := tokens + 1;
      q := cs.value - start + 1;
      cs := StrChrInTrimmed(a, cs.value + 1, d, start, t);
    }
    CountStep(t, q, d);
    tokens := tokens + 1;
  }

  /** The strchr of the counting loop: from beg inside t it finds the next delimiter of t. */
  method StrChrInTrimmed(a: array<char>, beg: nat, d: char, ghost start: nat, ghost t: string)
    returns (cs: Option<nat>)
    requires start <= beg <= start + |t| < a.Length && a[start + |t|] == NUL && d != NUL
    requires forall j :: 0 <= j < |t| ==> a[start + j] == t[j] && t[j] != NUL
    ensures cs == Found(t, beg - start, d, start)
  {
    StrChrFindsNextDelim(a[..], start, t, beg - start, d);
    cs := StrChr(a[..], beg, d);
  }

  /** The trimmed string t, at start in the original buffer, before the blanks and the terminator. */
  ghost predicate TrimmedAt(s0: seq<char>, t: string, start: nat, len: nat, L: nat) {
    start + |t| == len <= L < |s0| && s0[L] == NUL &&
    forall j :: 0 <= j < |t| ==> s0[start + j] == t[j] && t[j] != NUL
  }

  /** While cutting, strchr from the current token start w finds the next delimiter of t. */
  lemma StrChrWhileCutting(s0: seq<char>, t: string, start: nat, w: nat, len: nat, L: nat, d: char)
    requires TrimmedAt(s0, t, start, len, L) && start <= w <= len && d != NUL
    ensures Terminated(ClearedBuffer(s0, start, w, len, L, d), w)
    ensures StrChr(ClearedBuffer(s0, start, w, len, L, d), w, d) == Found(t, w - start, d, start)
  {
    var b := ClearedBuffer(s0, start, w, len, L, d);
    var q := w - start;
    assert b[start + |t|] == NUL;
    forall j | q <= j < |t|
      ensures b[start + j] == t[j] && t[j] != NUL
    {
    }
    StrChrFindsNextDelim(b, start, t, q, d);
    assert start + q == w;
  }

  /** Cutting at the delimiter x that strchr found moves the cut mark past it. */
  lemma CutAtFound(s0: seq<char>, t: string, start: nat, w: nat, len: nat, L: nat, d: char, x: nat)
    requires TrimmedAt(s0, t, start, len, L) && start <= w <= len
    requires Found(t, w - start, d, start) == Some(x)
    ensures w <= x < len
    ensures ClearedBuffer(s0, start, w, len, L, d)[x := NUL] == ClearedBuffer(s0, start, x + 1, len, L, d)
  {
    forall j | w <= j < x
      ensures s0[j] != d
    {
      assert s0[j] == t[j - start];
    }
    assert s0[x] == t[x - start];
    ClearedCut(s0, start, w, len, L, d, x);
  }

  /** One iteration of the cutting loop: NUL the next delimiter x, and the next token starts past it. */
  lemma CutStep(s0: seq<char>, t: string, start: nat, w: nat, len: nat, L: nat, d: char, i: nat, x: nat)
    requires TrimmedAt(s0, t, start, len, L) && start <= w <= len && d != NUL
    requires i < |StartsFrom(t, 0, d)| && StartsFrom(t, 0, d)[i] == w - start
    requires Found(t, w - start, d, start) == Some(x)
    ensures w <= x < len
    ensures i + 1 < |StartsFrom(t, 0, d)| && StartsFrom(t, 0, d)[i + 1] == x + 1 - start
    ensures ClearedBuffer(s0, start, w, len, L, d)[x := NUL] == ClearedBuffer(s0, start, x + 1, len, L, d)
  {
    StartsNext(t, 0, d, i);
    CutAtFound(s0, t, start, w, len, L, d, x);
  }

  /** Past the last delimiter of t there is nothing more to cut. */
  lemma CutRest(s0: seq<char>, t: string, start: nat, w: nat, len: nat, L: nat, d: char)
    requires TrimmedAt(s0, t, start, len, L) && start <= w <= len
    requires forall j :: w - start <= j < |t| ==> t[j] != d
    ensures ClearedBuffer(s0, start, w, len, L, d) == ClearedBuffer(s0, start, len, len, L, d)
  {
    forall j | w <= j < len
      ensures s0[j] != d
    {
      assert s0[j] == t[j - start];
    }
  }

  /**
   * The cutting part of tokenize: NUL every delimiter of the trimmed string
   * t, which sits at start, and collect a pointer to every token, then NULL.
   */
  method CutTokens(a: array<char>, start: nat, tokens: nat, d: char,
                   ghost s0: seq<char>, ghost t: string, ghost len: nat, ghost L: nat)
    returns (ret: seq<Option<nat>>)
    requires TrimmedAt(s0, t, start, len, L) && d != NUL
    requires tokens == Count(t, d) + 1
    requires a[..] == ClearedBuffer(s0, start, start, len, L, d)
    modifies a
    ensures a[..] == ClearedBuffer(s0, start, len, len, L, d)
    ensures ret == Pointers(Shifted(StartsFrom(t, 0, d), start)) + [None]
  {
    StartsCount(t, d);
    if tokens == 1 {
      CountZero(t, d);
      CutRest(s0, t, start, start, len, L, d);
      assert Pointers(Shifted(StartsFrom(t, 0, d), start)) == [Some(start)];
      ret := [Some(start)];
    } else {
      ret := CutEach(a, start, d, s0, t, len, L);
    }
    ret := ret + [None];
  }

  /** The loop of the cutting part: one token per iteration, the last one after the loop. */
  method CutEach(a: array<char>, start: nat, d: char,
                 ghost s0: seq<char>, ghost t: string, ghost len: nat, ghost L: nat)
    returns (ptrs: seq<Option<nat>>)
    requires TrimmedAt(s0, t, start, len, L) && d != NUL
    requires a[..] == ClearedBuffer(s0, start, start, len, L, d)
    modifies a
    ensures a[..] == ClearedBuffer(s0, start, len, len, L, d)
    ensures ptrs == Pointers(Shifted(StartsFrom(t, 0, d), start))
  {
    ptrs := [];
    var beg := start;
    var cs := NextCut(a, beg, d, s0, t, start, len, L);
    ghost var all := StartsFrom(t, 0, d);
    while cs.Some?
      invariant start <= beg <= len && |ptrs| < |all| && all[|ptrs|] == beg - start
      invariant forall j :: 0 <= j < |ptrs| ==> ptrs[j] == Some(start + all[j])
      invariant a[..] == ClearedBuffer(s0, start, beg, len, L, d)
      invariant cs == Found(t, beg - start, d, start)
      decreases len - beg
    {
      var x := cs.value;
      CutStep(s0, t, start, beg, len, L, d, |ptrs|, x);
      a[x] := NUL;
      PushStart(ptrs, all, start, beg);
      ptrs := ptrs + [Some(beg)];
      beg := x + 1;
      cs := NextCut(a, beg, d, s0, t, start, len, L);
    }
    StartsNext(t, 0, d, |ptrs|);
    CutRest(s0, t, start, beg, len, L, d);
    PushStart(ptrs, all, start, beg);
    ptrs := ptrs + [Some(beg)];
    PointersOfStarts(ptrs, all, start);
  }

  /** The strchr of the cutting loop: from the token start beg it finds the next delimiter of t. */
  method NextCut(a: array<char>, beg: nat, d: char,
                 ghost s0: seq<char>, ghost t: string, ghost start: nat, ghost len: nat, ghost L: nat)
    returns (cs: Option<nat>)
    requires TrimmedAt(s0, t, start, len, L) && start <= beg <= len && d != NUL
    requires a[..] == ClearedBuffer(s0, start, beg, len, L, d)
    ensures cs == Found(t, beg - start, d, start)
  {
    StrChrWhileCutting(s0, t, start, beg, len, L, d);
    cs := StrChr(a[..], beg, d);
  }

  /** Pointers that agree with the shifted starts one by one are those pointers. */
  lemma PointersOfStarts(ptrs: seq<Option<nat>>, all: seq<nat>, start: nat)
    requires |ptrs| == |all|
    requires forall j :: 0 <= j < |ptrs| ==> ptrs[j] == Some(start + all[j])
    ensures ptrs == Pointers(Shifted(all, start))
  {
  }

  /** Appending the pointer to the next token start keeps the pointers in step with the starts. */
  lemma PushStart(ptrs: seq<Option<nat>>, all: seq<nat>, start: nat, beg: nat)
    requires |ptrs| < |all| && all[|ptrs|] + start == beg
    requires forall j :: 0 <= j < |ptrs| ==> ptrs[j] == Some(start + all[j])
    ensures forall j :: 0 <= j <= |ptrs| ==> (ptrs + [Some(beg)])[j] == Some(start + all[j])
  {
  }

  /** Consecutive token starts: the next one is one past the delimiter that ends the token before it. */
  lemma {:induction false} StartsNext(t: string, from: nat, d: char, i: nat)
    requires from <= |t| && i < |StartsFrom(t, from, d)|
    ensures StartsFrom(t, from, d)[i] <= |t|
    ensures i + 1 < |StartsFrom(t, from, d)| <==> NextDelim(t, StartsFrom(t, from, d)[i], d) < |t|
    ensures i + 1 < |StartsFrom(t, from, d)| ==>
      StartsFrom(t, from, d)[i + 1] == NextDelim(t, StartsFrom(t, from, d)[i], d) + 1
    decreases |t| - from
  {
    var j := NextDelim(t, from, d);
    if j < |t| && i > 0 {
      StartsNext(t, j + 1, d, i - 1);
    }
  }

  /** tokenize points at one more token than the trimmed string has delimiters. */
  lemma StartsCount(t: string, d: char)
    ensures |StartsFrom(t, 0, d)| == Count(t, d) + 1
  {
    SplitFromCount(t, 0, d);
    StartsAgree(t, 0, d);
    assert t[0..] == t;
  }

  /** Counting one more delimiter moves the counted prefix past it. */
  lemma CountStep(t: string, q: nat, d: char)
    requires q <= |t|
    ensures NextDelim(t, q, d) < |t| ==> Count(t[..NextDelim(t, q, d) + 1], d) == Count(t[..q], d) + 1
    ensures NextDelim(t, q, d) == |t| ==> Count(t, d) == Count(t[..q], d)
  {
    var j := NextDelim(t, q, d);
    var gap := t[q..j];
    assert forall i :: 0 <= i < |gap| ==> gap[i] != d;
    CountZero(gap, d);
    if j < |t| {
      assert t[..j + 1] == t[..q] + (gap + [d]);
      CountAppend(t[..q], gap + [d], d);
      CountAppend(gap, [d], d);
      assert Count([d], d) == 1;
    } else {
      assert t == t[..q] + gap;
      CountAppend(t[..q], gap, d);
    }
  }
}
