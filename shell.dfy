/**
 * The command-line side of main.c: the blank-line and exit checks of the
 * read loop, the count of blank-separated words, and exec_command, which
 * cuts the line into an argument vector with strtok and decides between a
 * foreground and a background run.
 */
module Shell {
  import opened Wrappers
  import opened CStrings
  import Tokenizer

  /** The line buffer size of main.c; the argument vector has LIMIT / 2 + 1 slots. */
  const LIMIT: nat := 80
  const MaxArgs: nat := LIMIT / 2

  /** The string literal "exit", with its terminator. */
  const ExitWord: seq<char> := ['e', 'x', 'i', 't', NUL]

  /** The string literal "&", with its terminator. */
  const Amp: seq<char> := ['&', NUL]

  // ---------------------------------------------------------------------
  // strtok, section 7.24.5.8 of ISO/IEC 9899:2011
  // ---------------------------------------------------------------------

  /** The first index at or after p that is not a separator (a NUL never is one). */
  function SkipSeps(b: seq<char>, p: nat, seps: set<char>): (q: nat)
    requires Terminated(b, p) && NUL !in seps
    ensures p <= q < |b| && b[q] !in seps
    decreases |b| - p
  {
    if b[p] in seps then SkipSeps(b, p + 1, seps) else p
  }

  /** SkipSeps passes over separators only. */
  lemma {:induction false} SkipSepsSkips(b: seq<char>, p: nat, seps: set<char>)
    requires Terminated(b, p) && NUL !in seps
    ensures forall k :: p <= k < SkipSeps(b, p, seps) ==> b[k] in seps
    decreases |b| - p
  {
    if b[p] in seps {
      SkipSepsSkips(b, p + 1, seps);
    }
  }

  /** The first index at or after p holding a separator or the terminator. */
  function TokenEnd(b: seq<char>, p: nat, seps: set<char>): (q: nat)
    requires Terminated(b, p)
    ensures p <= q < |b| && (b[q] == NUL || b[q] in seps)
    decreases |b| - p
  {
    if b[p] == NUL || b[p] in seps then p else TokenEnd(b, p + 1, seps)
  }

  /** A token runs over neither separators nor the terminator. */
  lemma {:induction false} TokenEndScans(b: seq<char>, p: nat, seps: set<char>)
    requires Terminated(b, p)
    ensures forall k :: p <= k < TokenEnd(b, p, seps) ==> b[k] != NUL && b[k] !in seps
    decreases |b| - p
  {
    if !(b[p] == NUL || b[p] in seps) {
      TokenEndScans(b, p + 1, seps);
    }
  }

  /**
   * One strtok call from the saved position: the token found (None for a
   * NULL return), where it wrote a NUL over a separator, and the position
   * the next call goes on from.
   */
  datatype TokStep = TokStep(token: Option<nat>, cut: Option<nat>, save: nat)

  /** The buffer after a strtok call. */
  function After(b: seq<char>, st: TokStep): seq<char>
    requires st.cut.Some? ==> st.cut.value < |b|
  {
    if st.cut.Some? then b[st.cut.value := NUL] else b
  }

  /**
   * strtok: skip the separators; at the terminator return NULL and stay
   * there; otherwise the token runs to the next separator, which becomes
   * a NUL with the search going on after it, or to the terminator, where
   * every later search returns NULL.
   */
  function Strtok(b: seq<char>, from: nat, seps: set<char>): (r: TokStep)
    requires Terminated(b, from) && NUL !in seps
    ensures r.cut.Some? ==> r.cut.value < |b|
    ensures |After(b, r)| == |b| && Terminated(After(b, r), r.save)
    ensures r.token.Some? ==> Terminated(After(b, r), r.token.value)
  {
    var p := SkipSeps(b, from, seps);
    if b[p] == NUL then TokStep(None, None, p)
    else
      assert Terminated(b, p) by {
        SkipSepsSkips(b, from, seps);
      }
      var q := TokenEnd(b, p, seps);
      if b[q] == NUL then TokStep(Some(p), None, q)
      else
        assert Terminated(b[q := NUL], q + 1) && Terminated(b[q := NUL], p) by {
          var j :| p <= j < |b| && b[j] == NUL;
          TokenEndScans(b, p, seps);
          assert q < j && b[q := NUL][j] == NUL && b[q := NUL][q] == NUL;
        }
        TokStep(Some(p), Some(q), q + 1)
  }

  /**
   * What strtok promises: the characters it skips are separators; it
   * returns NULL exactly when only separators are left before the
   * terminator, and then stays at the terminator; otherwise the token
   * starts at a non-separator and runs to the first separator, which is
   * cut and searched past, or to the terminator, which later calls stop at.
   */
  lemma StrtokMeaning(b: seq<char>, from: nat, seps: set<char>)
    requires Terminated(b, from) && NUL !in seps
    ensures var r := Strtok(b, from, seps);
      (r.token.None? <==> forall k :: from <= k < from + StrLen(b, from) ==> b[k] in seps) &&
      (r.token.None? ==> r.cut.None? && r.save == from + StrLen(b, from)) &&
      (r.token.Some? ==> (from <= r.token.value < |b| && b[r.token.value] != NUL && b[r.token.value] !in seps &&
        (forall k :: from <= k < r.token.value ==> b[k] in seps) &&
        var e := TokenEnd(b, r.token.value, seps);
        (b[e] == NUL ==> r.cut.None? && r.save == e) &&
        (b[e] != NUL ==> r.cut == Some(e) && r.save == e + 1)))
  {
    var n := StrLen(b, from);
    var p := SkipSeps(b, from, seps);
    SkipSepsSkips(b, from, seps);
    if b[p] == NUL {
      StrLenIs(b, from, p - from);
    } else {
      assert b[from + n] == NUL;
      assert p < from + n && b[p] !in seps;
    }
  }

  /** A token returned by strtok reads back as the longest run of non-separators where it starts. */
  lemma StrtokReadBack(b: seq<char>, from: nat, seps: set<char>)
    requires Terminated(b, from) && NUL !in seps
    ensures var r := Strtok(b, from, seps);
      r.token.Some? ==> (Terminated(After(b, r), r.token.value) &&
        CStr(After(b, r), r.token.value) == b[r.token.value..TokenEnd(b, r.token.value, seps)] &&
        |CStr(After(b, r), r.token.value)| > 0 &&
        forall k :: 0 <= k < |CStr(After(b, r), r.token.value)| ==> CStr(After(b, r), r.token.value)[k] !in seps)
  {
    var r := Strtok(b, from, seps);
    if r.token.Some? {
      var p := r.token.value;
      var q := TokenEnd(b, p, seps);
      var a := After(b, r);
      TokenEndScans(b, p, seps);
      assert a[q] == NUL;
      forall j | p <= j < q
        ensures a[j] == b[j] && a[j] != NUL
      {
      }
      StrLenIs(a, p, q - p);
      assert a[p..q] == b[p..q];
    }
  }

  /** The strtok library call on the line buffer, writing its NUL in place. */
  method StrtokCall(buf: array<char>, from: nat, seps: set<char>) returns (tok: Option<nat>, save: nat)
    requires Terminated(buf[..], from) && NUL !in seps
    modifies buf
    ensures var r := Strtok(old(buf[..]), from, seps);
      tok == r.token && save == r.save && buf[..] == After(old(buf[..]), r)
  {
    var r := Strtok(buf[..], from, seps);
    if r.cut.Some? {
      buf[r.cut.value] := NUL;
    }
    tok, save := r.token, r.save;
  }

  /** Where a run of strtok calls has got to: the tokens so far, the buffer and the saved position. */
  datatype RunState = RunState(toks: seq<Option<nat>>, buf: seq<char>, save: nat)

  /**
   * The first k strtok calls of exec_command for n tokens over b: call i
   * separates at a blank, except the last, which separates at the newline.
   */
  function ArgRun(b: seq<char>, n: nat, k: nat): (r: RunState)
    requires Terminated(b, 0) && k <= n
    ensures |r.toks| == k && |r.buf| == |b| && Terminated(r.buf, r.save)
    ensures k > 0 && r.toks[k - 1].Some? ==> Terminated(r.buf, r.toks[k - 1].value)
  {
    if k == 0 then RunState([], b, 0)
    else
      var r := ArgRun(b, n, k - 1);
      var st := Strtok(r.buf, r.save, {Sep(n, k - 1)});
      RunState(r.toks + [st.token], After(r.buf, st), st.save)
  }

  /** The next strtok call of exec_command on the line buffer. */
  method StrtokNext(buf: array<char>, save: nat, sep: char, ghost b0: seq<char>, ghost n: nat, ghost i: nat)
    returns (tok: Option<nat>, save': nat)
    requires Terminated(b0, 0) && i < n && sep == Sep(n, i)
    requires buf[..] == ArgRun(b0, n, i).buf && save == ArgRun(b0, n, i).save
    modifies buf
    ensures var r := ArgRun(b0, n, i + 1);
      buf[..] == r.buf && save' == r.save && r.toks == ArgRun(b0, n, i).toks + [tok]
  {
    tok, save' := StrtokCall(buf, save, {sep});
  }

  // ---------------------------------------------------------------------
  // exec_command
  // ---------------------------------------------------------------------

  /** The separator after word i of n: a blank, or the newline after the last word. */
  function Sep(n: nat, i: int): char {
    if i + 1 < n then ' ' else '\n'
  }

  /**
   * What exec_command hands to fork_foreground or fork_background: the
   * program and the argument vector as execvp sees it, up to and
   * including the NULL at index tokens (pointers are buffer indices).
   */
  datatype Launch = Launch(background: bool, prog: Option<nat>, argv: seq<Option<nat>>)

  method ExecCommand(tokens: nat, buf: array<char>) returns (l: Launch)
    requires 1 <= tokens <= MaxArgs
    requires Terminated(buf[..], 0)
    requires ArgRun(buf[..], tokens, tokens).toks[tokens - 1].Some?
    modifies buf
    ensures var r := ArgRun(old(buf[..]), tokens, tokens);
      buf[..] == r.buf && l.prog == r.toks[0] &&
      (l.background <==> r.buf[r.toks[tokens - 1].value] == '&') &&
      |l.argv| == tokens + 1 && l.argv[tokens] == None &&
      forall i :: 0 <= i < tokens ==>
        l.argv[i] == (if i == tokens - 1 && l.background then None else r.toks[i])
  {
    ghost var r := ArgRun(buf[..], tokens, tokens);
    var args := new Option<nat>[MaxArgs + 1](_ => None);
    var prog := CollectArgs(tokens, buf, args, buf[..]);
    l := PassArgs(tokens, buf, args, prog, r.toks);
  }

  /** The strtok calls of exec_command: the program, then the arguments into args[1..tokens]. */
  method CollectArgs(tokens: nat, buf: array<char>, args: array<Option<nat>>, ghost b0: seq<char>)
    returns (prog: Option<nat>)
    requires 1 <= tokens <= MaxArgs && args.Length == MaxArgs + 1
    requires buf[..] == b0 && Terminated(b0, 0)
    modifies buf, args
    ensures var r := ArgRun(b0, tokens, tokens);
      buf[..] == r.buf && [prog] + args[1..tokens] == r.toks
  {
    var save: nat;
    var i: nat;
    args[0] := None;
    if tokens == 1 {
      prog, save := StrtokNext(buf, 0, '\n', b0, tokens, 0);
    } else {
      prog, save := StrtokNext(buf, 0, ' ', b0, tokens, 0);
      i := 1;
      while i < tokens - 1
        invariant 1 <= i <= tokens - 1
        invariant buf[..] == ArgRun(b0, tokens, i).buf && save == ArgRun(b0, tokens, i).save
        invariant [prog] + args[1..i] == ArgRun(b0, tokens, i).toks
      {
        save := StoreArg(buf, args, save, ' ', b0, tokens, i, prog);
        i := i + 1;
      }
      save := StoreArg(buf, args, save, '\n', b0, tokens, i, prog);
    }
  }

  /** Call i of the argument loop: the next strtok result goes into args[i]. */
  method StoreArg(buf: array<char>, args: array<Option<nat>>, save: nat, sep: char,
                  ghost b0: seq<char>, ghost tokens: nat, i: nat, ghost prog: Option<nat>)
    returns (save': nat)
    requires 1 <= i < tokens && i < args.Length && Terminated(b0, 0) && sep == Sep(tokens, i)
    requires var r := ArgRun(b0, tokens, i);
      buf[..] == r.buf && save == r.save && [prog] + args[1..i] == r.toks
    modifies buf, args
    ensures var r := ArgRun(b0, tokens, i + 1);
      buf[..] == r.buf && save' == r.save && [prog] + args[1..i + 1] == r.toks
  {
    ghost var before := args[1..i];
    var tok;
    tok, save' := StrtokNext(buf, save, sep, b0, tokens, i);
    ghost var cut := buf[..];
    args[i] := tok;
    assert buf[..] == cut;
    assert args[1..i + 1] == before + [tok];
  }

  /**
   * The end of exec_command: NULL-terminate args at index tokens, put the
   * program in args[0], and take a last argument starting with '&' out of
   * the vector as the background flag.
   */
  method PassArgs(tokens: nat, buf: array<char>, args: array<Option<nat>>, prog: Option<nat>, ghost toks: seq<Option<nat>>)
    returns (l: Launch)
    requires 1 <= tokens <= MaxArgs && args.Length == MaxArgs + 1
    requires |toks| == tokens && toks == [prog] + args[1..tokens]
    requires toks[tokens - 1].Some? && Terminated(buf[..], toks[tokens - 1].value)
    modifies args
    ensures l.prog == prog && (l.background <==> buf[toks[tokens - 1].value] == '&')
    ensures |l.argv| == tokens + 1 && l.argv[tokens] == None
    ensures forall i :: 0 <= i < tokens ==>
      l.argv[i] == (if i == tokens - 1 && l.background then None else toks[i])
  {
    args[tokens] := None;
    args[0] := prog;
    assert args[..tokens] == toks;
    var last := args[tokens - 1];
    LiteralsTerminated();
    var background := StrNEq(buf[..], last.value, Amp, 0, 1);
    AmpMeaning(buf[..], last.value);
    if background {
      args[tokens - 1] := None;
    }
    l := Launch(background, prog, args[..tokens + 1]);
  }

  /** strncmp(arg, "&", 1) == 0 exactly when the argument starts with '&'. */
  lemma AmpMeaning(b: seq<char>, p: nat)
    requires Terminated(b, p)
    ensures Terminated(Amp, 0) && (StrNEq(b, p, Amp, 0, 1) <==> b[p] == '&')
  {
    LiteralsTerminated();
    assert Terminated(Amp, 1);
  }

  lemma LiteralsTerminated()
    ensures Terminated(Amp, 0) && Terminated(ExitWord, 0) && StrLen(ExitWord, 0) == 4
  {
    assert Amp[1] == NUL;
    StrLenIs(ExitWord, 0, 4);
  }

  // ---------------------------------------------------------------------
  // The main loop's checks
  // ---------------------------------------------------------------------

  /** What the read loop does with a line: skip it, end the session, or run it with this many tokens. */
  datatype Action = Skip | Quit | Execute(tokens: nat)

  method Dispatch(line: array<char>) returns (act: Action)
    requires Terminated(line[..], 0)
    ensures act == Skip <==> line[0] == '\n'
    ensures act == Quit <==> line[0] != '\n' && |CStr(line[..], 0)| >= 4 && CStr(line[..], 0)[..4] == "exit"
    ensures act.Execute? ==> act.tokens == Count(CStr(line[..], 0), ' ') + 1
  {
    if line[0] == '\n' {
      return Skip;
    }
    LiteralsTerminated();
    ExitMeaning(line[..]);
    if StrNEq(line[..], 0, ExitWord, 0, StrLen(ExitWord, 0)) {
      return Quit;
    }
    ghost var t := CStr(line[..], 0);
    var tokens := Tokenizer.CountDelims(line, 0, ' ', t);
    return Execute(tokens);
  }

  /** The exit check compares four characters: any line starting with "exit" ends the session. */
  lemma ExitMeaning(b: seq<char>)
    requires Terminated(b, 0)
    ensures Terminated(ExitWord, 0) && StrLen(ExitWord, 0) == 4
    ensures StrNEq(b, 0, ExitWord, 0, 4) <==> |CStr(b, 0)| >= 4 && CStr(b, 0)[..4] == "exit"
  {
    LiteralsTerminated();
    assert CStr(ExitWord, 0) == "exit";
    StrNEqMeaning(b, 0, ExitWord, 0, 4);
    var r := CStr(b, 0);
    assert Window("exit", 4) == "exit";
    if |r| >= 4 {
      assert Window(r, 4) == r[..4];
    } else {
      assert |Window(r, 4)| == |r| + 1 && Window(r, 4)[|r|] == NUL;
    }
  }

  // ---------------------------------------------------------------------
  // Lines of blank-separated words
  // ---------------------------------------------------------------------

  /** The first k words of ws, each followed by its separator. */
  function Fields(ws: seq<string>, k: nat): string
    requires k <= |ws|
  {
    if k == 0 then [] else Fields(ws, k - 1) + ws[k - 1] + [Sep(|ws|, k - 1)]
  }

  /** The words separated by single blanks and ended by a newline. */
  function Line(ws: seq<string>): string {
    Fields(ws, |ws|)
  }

  /** Where word k starts in the line. */
  function Start(ws: seq<string>, k: nat): nat
    requires k <= |ws|
  {
    |Fields(ws, k)|
  }

  /** The pointers to the first k words. */
  function Starts(ws: seq<string>, k: nat): seq<Option<nat>>
    requires k <= |ws|
  {
    if k == 0 then [] else Starts(ws, k - 1) + [Some(Start(ws, k - 1))]
  }

  /** The buffer b with a NUL written after each of the first k words. */
  function CutBuf(b: seq<char>, ws: seq<string>, k: nat): (r: seq<char>)
    requires k <= |ws| && Start(ws, k) <= |b|
    ensures |r| == |b|
  {
    if k == 0 then b
    else
      assert Fields(ws, k) == Fields(ws, k - 1) + ws[k - 1] + [Sep(|ws|, k - 1)];
      CutBuf(b, ws, k - 1)[Start(ws, k - 1) + |ws[k - 1]| := NUL]
  }

  predicate IsWord(w: string) {
    |w| > 0 && forall j :: 0 <= j < |w| ==> w[j] != ' ' && w[j] != '\n' && w[j] != NUL
  }

  /** b holds, from its start, a line made of the words ws, then the terminator. */
  predicate WordLine(b: seq<char>, ws: seq<string>) {
    |ws| >= 1 && (forall i :: 0 <= i < |ws| ==> IsWord(ws[i])) &&
    |Line(ws)| < |b| && b[..|Line(ws)|] == Line(ws) && b[|Line(ws)|] == NUL
  }

  lemma {:induction false} FieldsPrefix(ws: seq<string>, k: nat, m: nat)
    requires k <= m <= |ws|
    ensures |Fields(ws, k)| <= |Fields(ws, m)| && Fields(ws, m)[..|Fields(ws, k)|] == Fields(ws, k)
    decreases m
  {
    if k < m {
      FieldsPrefix(ws, k, m - 1);
      assert Fields(ws, m) == Fields(ws, m - 1) + ws[m - 1] + [Sep(|ws|, m - 1)];
    }
  }

  /** The cuts made so far lie before word k: from its start on, the buffer is untouched. */
  lemma {:induction false} CutBufAbove(b: seq<char>, ws: seq<string>, k: nat, i: nat)
    requires k <= |ws| && Start(ws, k) <= i < |b|
    ensures CutBuf(b, ws, k)[i] == b[i]
  {
    if k > 0 {
      assert Fields(ws, k) == Fields(ws, k - 1) + ws[k - 1] + [Sep(|ws|, k - 1)];
      CutBufAbove(b, ws, k - 1, i);
    }
  }

  /** Once the calls have passed word i, it is followed by a NUL and otherwise untouched. */
  lemma {:induction false} CutBufWord(b: seq<char>, ws: seq<string>, k: nat, i: nat, j: nat)
    requires i < k <= |ws| && Start(ws, k) <= |b| && j <= |ws[i]|
    ensures Start(ws, i) + j < |b|
    ensures CutBuf(b, ws, k)[Start(ws, i) + j] == if j < |ws[i]| then b[Start(ws, i) + j] else NUL
    decreases k
  {
    var f := Fields(ws, k - 1);
    assert Fields(ws, k) == f + ws[k - 1] + [Sep(|ws|, k - 1)];
    if k == i + 1 {
      if j < |ws[i]| {
        CutBufAbove(b, ws, i, Start(ws, i) + j);
      }
    } else {
      FieldsPrefix(ws, i + 1, k - 1);
      assert Fields(ws, i + 1) == Fields(ws, i) + ws[i] + [Sep(|ws|, i)];
      CutBufWord(b, ws, k - 1, i, j);
    }
  }

  /** strtok from the start of a word followed by a separator returns the word and cuts after it. */
  lemma StrtokWord(b: seq<char>, p: nat, c: char, w: string)
    requires Terminated(b, p) && (c == ' ' || c == '\n') && IsWord(w)
    requires p + |w| < |b| && b[p + |w|] == c
    requires forall j :: 0 <= j < |w| ==> b[p + j] == w[j]
    ensures Strtok(b, p, {c}) == TokStep(Some(p), Some(p + |w|), p + |w| + 1)
  {
    var seps := {c};
    forall k | p <= k < p + |w|
      ensures b[k] != NUL && b[k] !in seps
    {
      assert b[k] == w[k - p];
    }
    assert b[p + |w|] != NUL && b[p + |w|] in seps;
    TokenEndScans(b, p, seps);
    assert TokenEnd(b, p, seps) == p + |w|;
  }

  /** Word k of a word line, where the run has got to after k calls. */
  lemma WordAt(b: seq<char>, ws: seq<string>, k: nat, j: nat)
    requires WordLine(b, ws) && k < |ws| && j <= |ws[k]|
    ensures Start(ws, k + 1) == Start(ws, k) + |ws[k]| + 1 <= |Line(ws)|
    ensures b[Start(ws, k) + j] == if j < |ws[k]| then ws[k][j] else Sep(|ws|, k)
  {
    FieldsPrefix(ws, k + 1, |ws|);
    var f := Fields(ws, k + 1);
    assert f == Fields(ws, k) + ws[k] + [Sep(|ws|, k)];
    assert b[Start(ws, k) + j] == Line(ws)[Start(ws, k) + j] == f[Start(ws, k) + j];
  }

  /** Word k of ws and the separator after it sit in b where the line puts them. */
  predicate WordFits(b: seq<char>, ws: seq<string>, k: nat)
    requires k < |ws|
  {
    IsWord(ws[k]) && Start(ws, k + 1) == Start(ws, k) + |ws[k]| + 1 <= |b| &&
    b[Start(ws, k) + |ws[k]|] == Sep(|ws|, k) &&
    forall j :: 0 <= j < |ws[k]| ==> b[Start(ws, k) + j] == ws[k][j]
  }

  /** Over a line of words, exec_command's first k strtok calls return the first k words and cut after each. */
  lemma {:induction false} RunOverWords(b: seq<char>, ws: seq<string>, k: nat)
    requires Terminated(b, 0) && k <= |ws|
    requires forall i :: 0 <= i < |ws| ==> WordFits(b, ws, i)
    ensures Start(ws, k) <= |b|
    ensures var r := ArgRun(b, |ws|, k);
      r.toks == Starts(ws, k) && r.save == Start(ws, k) && r.buf == CutBuf(b, ws, k)
  {
    if k > 0 {
      RunOverWords(b, ws, k - 1);
      assert WordFits(b, ws, k - 1);
      RunStep(b, ws, k - 1);
    } else {
      assert Fields(ws, 0) == [];
    }
  }

  /** Call k + 1 of the run over a line of words, from where the first k calls left off. */
  lemma RunStep(b: seq<char>, ws: seq<string>, k: nat)
    requires Terminated(b, 0) && k < |ws| && WordFits(b, ws, k)
    requires var r := ArgRun(b, |ws|, k);
      r.toks == Starts(ws, k) && r.save == Start(ws, k) && r.buf == CutBuf(b, ws, k)
    ensures var r := ArgRun(b, |ws|, k + 1);
      r.toks == Starts(ws, k + 1) && r.save == Start(ws, k + 1) && r.buf == CutBuf(b, ws, k + 1)
  {
    var r := ArgRun(b, |ws|, k);
    StepOnWord(b, ws, k, r.buf);
  }

  /** strtok from the start of word k, in the buffer as the first k calls left it, returns the word and cuts after it. */
  lemma StepOnWord(b: seq<char>, ws: seq<string>, k: nat, rb: seq<char>)
    requires k < |ws| && WordFits(b, ws, k)
    requires rb == CutBuf(b, ws, k) && Terminated(rb, Start(ws, k))
    ensures Strtok(rb, Start(ws, k), {Sep(|ws|, k)}) ==
      TokStep(Some(Start(ws, k)), Some(Start(ws, k) + |ws[k]|), Start(ws, k + 1))
  {
    var p, c, w := Start(ws, k), Sep(|ws|, k), ws[k];
    assert p + |w| + 1 == Start(ws, k + 1) <= |b| && b[p + |w|] == c;
    forall j | 0 <= j < |w|
      ensures rb[p + j] == w[j]
    {
      CutBufAbove(b, ws, k, p + j);
    }
    CutBufAbove(b, ws, k, p + |w|);
    StrtokWord(rb, p, c, w);
  }

  /** Word k of a word line and the separator after it, in the line. */
  lemma WordIn(b: seq<char>, ws: seq<string>, k: nat)
    requires WordLine(b, ws) && k < |ws|
    ensures Start(ws, k + 1) == Start(ws, k) + |ws[k]| + 1 <= |Line(ws)| < |b|
    ensures b[Start(ws, k) + |ws[k]|] == Sep(|ws|, k)
    ensures forall j :: 0 <= j < |ws[k]| ==> b[Start(ws, k) + j] == ws[k][j]
  {
    WordAt(b, ws, k, |ws[k]|);
    forall j | 0 <= j < |ws[k]|
      ensures b[Start(ws, k) + j] == ws[k][j]
    {
      WordAt(b, ws, k, j);
    }
  }

  /**
   * exec_command over a line of words separated by single blanks: the
   * argument strtok returns for word i points at its start and reads back
   * as the word, so the last argument is never NULL.
   */
  lemma WordLineArgs(b: seq<char>, ws: seq<string>)
    requires WordLine(b, ws)
    ensures Terminated(b, 0)
    ensures var r := ArgRun(b, |ws|, |ws|);
      forall i :: 0 <= i < |ws| ==> (r.toks[i] == Some(Start(ws, i)) &&
        Terminated(r.buf, Start(ws, i)) && CStr(r.buf, Start(ws, i)) == ws[i])
  {
    assert Terminated(b, 0) by {
      assert b[|Line(ws)|] == NUL;
    }
    forall i | 0 <= i < |ws|
      ensures WordFits(b, ws, i)
    {
      WordIn(b, ws, i);
    }
    RunOverWords(b, ws, |ws|);
    var r := ArgRun(b, |ws|, |ws|);
    forall i | 0 <= i < |ws|
      ensures r.toks[i] == Some(Start(ws, i)) &&
        Terminated(r.buf, Start(ws, i)) && CStr(r.buf, Start(ws, i)) == ws[i]
    {
      StartsAt(ws, |ws|, i);
      WordReadBack(b, ws, i, r.buf);
    }
  }

  /** In the buffer after all calls, word i reads back as a C string. */
  lemma WordReadBack(b: seq<char>, ws: seq<string>, i: nat, rb: seq<char>)
    requires i < |ws| && WordFits(b, ws, i) && Start(ws, |ws|) <= |b| && rb == CutBuf(b, ws, |ws|)
    ensures Terminated(rb, Start(ws, i)) && CStr(rb, Start(ws, i)) == ws[i]
  {
    var p, w := Start(ws, i), ws[i];
    forall j | 0 <= j < |w|
      ensures p + j < |rb| && rb[p + j] == w[j] && w[j] != NUL
    {
      CutBufWord(b, ws, |ws|, i, j);
    }
    CutBufWord(b, ws, |ws|, i, |w|);
    CStrIs(rb, p, w);
  }

  lemma {:induction false} StartsAt(ws: seq<string>, k: nat, i: nat)
    requires i < k <= |ws|
    ensures |Starts(ws, k)| == k && Starts(ws, k)[i] == Some(Start(ws, i))
    decreases k
  {
    if i < k - 1 {
      StartsAt(ws, k - 1, i);
    }
    assert |Starts(ws, k - 1)| == k - 1 by {
      if k - 1 > 0 {
        StartsAt(ws, k - 1, 0);
      }
    }
  }

  /** The blanks of a word line are one fewer than its words: Dispatch counts the words. */
  lemma WordLineCount(b: seq<char>, ws: seq<string>)
    requires WordLine(b, ws)
    ensures Terminated(b, 0) && Count(CStr(b, 0), ' ') + 1 == |ws|
  {
    var n := |Line(ws)|;
    StrLenIs(b, 0, n) by {
      forall j | 0 <= j < n
        ensures b[j] != NUL
      {
        LineChar(ws, |ws|, j);
        assert b[j] == Line(ws)[j];
      }
    }
    FieldsCount(ws, |ws|);
  }

  /** Every character of a line of words is a word character or a separator, never a NUL. */
  lemma {:induction false} LineChar(ws: seq<string>, k: nat, j: nat)
    requires k <= |ws| && (forall i :: 0 <= i < |ws| ==> IsWord(ws[i])) && j < |Fields(ws, k)|
    ensures Fields(ws, k)[j] != NUL
    decreases k
  {
    var f := Fields(ws, k - 1);
    assert Fields(ws, k) == f + ws[k - 1] + [Sep(|ws|, k - 1)];
    if j < |f| {
      LineChar(ws, k - 1, j);
    } else if j < |f| + |ws[k - 1]| {
      assert Fields(ws, k)[j] == ws[k - 1][j - |f|];
    }
  }

  lemma {:induction false} FieldsCount(ws: seq<string>, k: nat)
    requires k <= |ws| && forall i :: 0 <= i < |ws| ==> IsWord(ws[i])
    ensures Count(Fields(ws, k), ' ') == if k == |ws| && k > 0 then k - 1 else k
    decreases k
  {
    if k > 0 {
      FieldsCount(ws, k - 1);
      var w := ws[k - 1];
      CountAppend(Fields(ws, k - 1) + w, [Sep(|ws|, k - 1)], ' ');
      CountAppend(Fields(ws, k - 1), w, ' ');
      CountZero(w, ' ');
      CountAppend([], [Sep(|ws|, k - 1)], ' ');
    }
  }

  /** A blank before the newline leaves exec_command's last strtok call nothing but the newline: it returns NULL. */
  lemma TrailingBlankGivesNullLastArg()
    ensures var b := ['l', 's', ' ', '\n', NUL];
      Terminated(b, 0) && Count(CStr(b, 0), ' ') + 1 == 2 &&
      ArgRun(b, 2, 2).toks[1] == None
  {
    var b := ['l', 's', ' ', '\n', NUL];
    assert b[4] == NUL;
    StrLenIs(b, 0, 4);
    assert CStr(b, 0) == ['l', 's'] + [' '] + ['\n'];
    CountAppend(['l', 's'] + [' '], ['\n'], ' ');
    CountAppend(['l', 's'], [' '], ' ');
    CountZero(['l', 's'], ' ');
    CountZero(['\n'], ' ');
    StrtokWord(b, 0, ' ', ['l', 's']);
    assert ArgRun(b, 2, 0) == RunState([], b, 0);
    var r1 := ArgRun(b, 2, 1);
    assert r1.save == 3 && r1.buf == ['l', 's', NUL, '\n', NUL];
    assert SkipSeps(r1.buf, 3, {'\n'}) == 4;
  }
}
