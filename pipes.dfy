/**
 * setup_pipes, blockingwait and fork_and_run from utils.c: start one child
 * per pipeline stage, link neighbouring stages with pipes, keep the
 * parent's descriptor table free of pipe ends it no longer needs, and wait
 * for the children in stage order unless the pipeline runs in background.
 *
 * The system calls are not executed: what pipe, fork, close, dup2, execvp
 * and waitpid answer comes from an oracle, and a descriptor is a number in
 * a table whose entries the model adds and removes.
 */
module Pipes {
  import opened Wrappers

  /** The two descriptors pipe() fills in: index PIPE_READ and index PIPE_WRITE. */
  datatype PipeFds = PipeFds(read: int, write: int)

  /** The TRUE of main.c, against which fork_and_run tests its int flag bg. */
  const TRUE: int := 1

  /** A process id as fork reports it to the parent. */
  type Pid = p: int | p > 0 witness 1

  /**
   * What the system answers, stage by stage: whether pipe() succeeds,
   * the pid fork() gives the parent (None for -1), whether close()
   * succeeds on a descriptor, whether the child's two dup2 calls and its
   * execvp succeed.
   */
  datatype Os = Os(pipeOk: nat -> bool, fork: nat -> Option<Pid>, closeOk: int -> bool,
                   dupInOk: nat -> bool, dupOutOk: nat -> bool, execOk: nat -> bool)

  /** What becomes of a forked child: it runs the command with the given stdin and stdout, or exits. */
  datatype Fate = Exec(stdin: Option<int>, stdout: Option<int>) | ChildExit(status: int)

  /** One started stage as the parent records it, with the descriptors the child inherited at fork time. */
  datatype Stage = Stage(pid: Pid, inherited: set<int>, fate: Fate)

  /** How setup_pipes ends: exit(1) after a failed system call, or with every stage started. */
  datatype Outcome = SetupExit(status: int) | Started

  /**
   * The descriptors the parent process has open. New descriptors are
   * numbered from next on, so a pipe's ends are fresh names that no
   * earlier descriptor ever had.
   */
  class FdTable {
    var open: set<int>
    var next: int

    ghost predicate Valid()
      reads this
    {
      forall fd :: fd in open ==> fd < next
    }

    constructor (base: set<int>, first: int)
      requires forall fd :: fd in base ==> fd < first
      ensures Valid() && open == base && next == first
    {
      open := base;
      next := first;
    }

    /** pipe(): two new descriptors, read end first, or nothing when the system refuses. */
    method Pipe(ok: bool) returns (r: Option<PipeFds>)
      requires Valid()
      modifies this
      ensures Valid()
      ensures ok ==> r == Some(PipeFds(old(next), old(next) + 1)) &&
                     open == old(open) + {old(next), old(next) + 1} && next == old(next) + 2
      ensures !ok ==> r == None && open == old(open) && next == old(next)
    {
      if ok {
        r := Some(PipeFds(next, next + 1));
        open := open + {next, next + 1};
        next := next + 2;
      } else {
        r := None;
      }
    }

    /** close(fd): succeeds, and drops fd, exactly when fd is open and the system does not fail. */
    method Close(fd: int, ok: bool) returns (closed: bool)
      requires Valid()
      modifies this
      ensures Valid()
      ensures closed <==> fd in old(open) && ok
      ensures open == (if closed then old(open) - {fd} else old(open)) && next == old(next)
    {
      closed := fd in open && ok;
      if closed {
        open := open - {fd};
      }
    }
  }

  // ---------------------------------------------------------------------
  // The descriptors of each stage

  /** The pipe created at stage i when every pipe so far was created: the next two fresh descriptors. */
  function Ends(next0: int, i: nat): (p: PipeFds)
    ensures p.read == next0 + 2 * i && p.write == p.read + 1
  {
    PipeFds(next0 + 2 * i, next0 + 2 * i + 1)
  }

  /**
   * How many pipes the first i stages of a len-stage pipeline create,
   * counted stage by stage: one for each stage except the last. In all,
   * len - 1 pipes, one between each two neighbouring stages.
   */
  function PipesMade(len: nat, i: nat): (n: nat)
    requires i <= len
    ensures n <= i && (i < len ==> n == i) && (0 < len == i ==> n == len - 1)
  {
    if i == 0 then 0 else PipesMade(len, i - 1) + (if i - 1 != len - 1 then 1 else 0)
  }

  /** new_p after i stages: the placeholder {0, 0} until a pipe is made, then the latest pipe. */
  function NewP(next0: int, len: nat, i: nat): PipeFds
    requires i <= len
  {
    var n := PipesMade(len, i);
    if n == 0 then PipeFds(0, 0) else Ends(next0, n - 1)
  }

  /** The parent's open descriptors after i stages: base, plus the newest pipe's read end while a stage is still to come. */
  function OpenAfter(base: set<int>, next0: int, len: nat, i: nat): set<int>
    requires i <= len
  {
    if 0 < i < len then base + {Ends(next0, i - 1).read} else base
  }

  /** The descriptors child i inherits: the parent's open set right after its fork. */
  function Inherited(base: set<int>, next0: int, len: nat, i: nat): set<int>
    requires i < len
  {
    OpenAfter(base, next0, len, i) + (if i < len - 1 then {Ends(next0, i).read, Ends(next0, i).write} else {})
  }

  /**
   * The child branch of stage i: dup2 the previous read end onto stdin
   * unless it is the first stage, dup2 the new write end onto stdout unless
   * it is the last, then execvp; any failure exits with status 1.
   */
  function ChildBranch(os: Os, len: nat, i: nat, prev: PipeFds, cur: PipeFds): Fate
    requires i < len
  {
    if i != 0 && !os.dupInOk(i) then ChildExit(1)
    else if len - 1 != i && !os.dupOutOk(i) then ChildExit(1)
    else if !os.execOk(i) then ChildExit(1)
    else Exec(if i != 0 then Some(prev.read) else None, if len - 1 != i then Some(cur.write) else None)
  }

  /** The child branch of stage i with prev_p and new_p as the loop leaves them after i stages. */
  function ChildFate(os: Os, next0: int, len: nat, i: nat): Fate
    requires i < len
  {
    ChildBranch(os, len, i, NewP(next0, len, i), NewP(next0, len, i + 1))
  }

  /** Every system call the parent makes for stage i succeeds. */
  predicate StageOk(os: Os, next0: int, len: nat, i: nat)
    requires i < len
  {
    (len - 1 == i || os.pipeOk(i)) && os.fork(i).Some? &&
    (i == 0 || os.closeOk(NewP(next0, len, i).read)) &&
    (len - 1 == i || os.closeOk(Ends(next0, i).write))
  }

  /** The record of stage i once it has started. */
  function StageAt(os: Os, base: set<int>, next0: int, len: nat, i: nat): Stage
    requires i < len && os.fork(i).Some?
  {
    Stage(os.fork(i).value, Inherited(base, next0, len, i), ChildFate(os, next0, len, i))
  }

  // ---------------------------------------------------------------------
  // setup_pipes

  /**
   * setup_pipes: for each of the len stages make a pipe (not for the
   * last), fork, and in the parent close the previous read end (not at
   * the first stage) and the new write end (not at the last), then record
   * the child. A failed pipe, fork or close ends with status 1.
   */
  method SetupPipes(t: FdTable, len: nat, os: Os) returns (out: Outcome, stages: seq<Stage>)
    requires t.Valid()
    modifies t
    ensures t.Valid() && old(t.open) <= t.open
    ensures |stages| <= len
    ensures forall j :: 0 <= j < |stages| ==>
      StageOk(os, old(t.next), len, j) && stages[j] == StageAt(os, old(t.open), old(t.next), len, j)
    ensures out == Started <==> |stages| == len
    ensures out == Started <==> forall k :: 0 <= k < len ==> StageOk(os, old(t.next), len, k)
    ensures out.SetupExit? ==> out.status == 1 && !StageOk(os, old(t.next), len, |stages|)
    ensures out == Started ==> t.open == old(t.open) && t.next == old(t.next) + 2 * PipesMade(len, len)
  {
    ghost var base := t.open;
    var next0 := t.next;
    var prev := PipeFds(0, 0);
    var cur := PipeFds(0, 0);
    stages := [];
    for i := 0 to len
      invariant t.Valid() && base <= t.open
      invariant t.next == next0 + 2 * PipesMade(len, i)
      invariant t.open == OpenAfter(base, next0, len, i)
      invariant cur == NewP(next0, len, i)
      invariant |stages| == i
      invariant forall j :: 0 <= j < i ==> StageOk(os, next0, len, j) && stages[j] == StageAt(os, base, next0, len, j)
    {
      prev := cur;
      if len - 1 != i {
        var p := t.Pipe(os.pipeOk(i));
        if p.None? {
          assert !StageOk(os, next0, len, i);
          return SetupExit(1), stages;
        }
        cur := p.value;
      }
      var pid := os.fork(i);
      if pid.None? {
        assert !StageOk(os, next0, len, i);
        return SetupExit(1), stages;
      }
      var inherited := t.open;
      if i != 0 {
        var closed := t.Close(prev.read, os.closeOk(prev.read));
        if !closed {
          assert !StageOk(os, next0, len, i);
          return SetupExit(1), stages;
        }
      }
      if len - 1 != i {
        var closed := t.Close(cur.write, os.closeOk(cur.write));
        if !closed {
          assert !StageOk(os, next0, len, i);
          return SetupExit(1), stages;
        }
      }
      stages := stages + [Stage(pid.value, inherited, ChildBranch(os, len, i, prev, cur))];
    }
    out := Started;
  }

  // ---------------------------------------------------------------------
  // What the descriptor bookkeeping guarantees

  /**
   * A pipe's write end reaches exactly one child, the stage that writes
   * into it: the parent closes it before the next fork, so no later stage
   * inherits an upstream write end.
   */
  lemma WriteEndOnlyInItsStage(base: set<int>, next0: int, len: nat, p: nat, j: nat)
    requires forall fd :: fd in base ==> fd < next0
    requires p + 1 < len && j < len
    ensures Ends(next0, p).write in Inherited(base, next0, len, j) <==> j == p
  {
    assert Ends(next0, p).write !in base;
  }

  /** A pipe's read end reaches the stage that made it and the stage after, which reads from it. */
  lemma ReadEndInTwoStages(base: set<int>, next0: int, len: nat, p: nat, j: nat)
    requires forall fd :: fd in base ==> fd < next0
    requires p + 1 < len && j < len
    ensures Ends(next0, p).read in Inherited(base, next0, len, j) <==> j == p || j == p + 1
  {
    assert Ends(next0, p).read !in base;
  }

  /** Between stages the parent holds no write end at all, and no pipe end once every stage has started. */
  lemma ParentHoldsNoWriteEnd(base: set<int>, next0: int, len: nat, i: nat, p: nat)
    requires forall fd :: fd in base ==> fd < next0
    requires i <= len && p + 1 < len
    ensures Ends(next0, p).write !in OpenAfter(base, next0, len, i)
    ensures i == len ==> Ends(next0, p).read !in OpenAfter(base, next0, len, i)
  {
    assert Ends(next0, p).write !in base && Ends(next0, p).read !in base;
  }

  /**
   * A child that gets to execvp reads from the previous stage's pipe
   * unless it is the first stage and writes into its own pipe unless it is
   * the last; a failed dup2 or execvp makes it exit with status 1.
   */
  lemma ChildWiring(os: Os, next0: int, len: nat, i: nat)
    requires i < len
    ensures ChildFate(os, next0, len, i).ChildExit? <==>
      (i != 0 && !os.dupInOk(i)) || (i != len - 1 && !os.dupOutOk(i)) || !os.execOk(i)
    ensures ChildFate(os, next0, len, i).ChildExit? ==> ChildFate(os, next0, len, i).status == 1
    ensures var f := ChildFate(os, next0, len, i);
      f.Exec? ==>
        f.stdin == (if i == 0 then None else Some(Ends(next0, i - 1).read)) &&
        f.stdout == (if i == len - 1 then None else Some(Ends(next0, i).write))
  {
  }

  /** Neighbouring stages that both run are joined by one pipe: the first writes what the second reads. */
  lemma NeighboursShareAPipe(os: Os, next0: int, len: nat, i: nat)
    requires i + 1 < len
    requires ChildFate(os, next0, len, i).Exec? && ChildFate(os, next0, len, i + 1).Exec?
    ensures ChildFate(os, next0, len, i).stdout == Some(Ends(next0, i).write)
    ensures ChildFate(os, next0, len, i + 1).stdin == Some(Ends(next0, i).read)
  {
    ChildWiring(os, next0, len, i);
    ChildWiring(os, next0, len, i + 1);
  }

  // ---------------------------------------------------------------------
  // blockingwait and fork_and_run

  /** A status as the W* macros classify it. */
  datatype Status = Exited(code: int) | Signaled(signo: int) | Stopped(signo: int) | Continued

  /** One answer of waitpid(pid, &status, WUNTRACED): its return value and the status it stored. */
  datatype Reply = Reply(ret: int, status: Status)

  /** How a blocking wait ends: the child is gone, or it was suspended (the pid waitpid reported). */
  datatype WaitEnd = Finished | Suspended(pid: Pid)

  /** A reply that ends the wait: a real child reported exited, signalled or stopped. */
  predicate EndsWait(r: Reply) {
    r.ret > 0 && (r.status.Exited? || r.status.Signaled? || r.status.Stopped?)
  }

  /** The index of the first reply that ends the wait, |rs| when none does. */
  function FirstEnd(rs: seq<Reply>): (k: nat)
    ensures k <= |rs| && (k < |rs| ==> EndsWait(rs[k]))
    ensures forall j :: 0 <= j < k ==> !EndsWait(rs[j])
  {
    if rs == [] then 0
    else if EndsWait(rs[0]) then 0
    else FirstEnd(rs[1..]) + 1
  }

  /** What a blocking wait over these replies comes to; None when it is still waiting after all of them. */
  function WaitResult(rs: seq<Reply>): (e: Option<WaitEnd>)
    ensures e.Some? <==> exists k :: 0 <= k < |rs| && EndsWait(rs[k])
    ensures e.Some? ==>
      exists k :: (0 <= k < |rs| && EndsWait(rs[k]) &&
        (forall j :: 0 <= j < k ==> !EndsWait(rs[j])) &&
        (e.value.Suspended? <==> rs[k].status.Stopped?) &&
        (e.value.Suspended? ==> e.value.pid == rs[k].ret))
  {
    var k := FirstEnd(rs);
    if k == |rs| then None
    else if rs[k].status.Stopped? then Some(Suspended(rs[k].ret))
    else Some(Finished)
  }

  /**
   * blockingwait: call waitpid again and again until it reports that the
   * child exited, was killed by a signal or was stopped. The replies the
   * system gives are the sequence rs; the loop gives up, still blocked,
   * when they run out.
   */
  method BlockingWait(rs: seq<Reply>) returns (e: Option<WaitEnd>)
    ensures e == WaitResult(rs)
    ensures e.Some? <==> exists k :: 0 <= k < |rs| && EndsWait(rs[k])
  {
    var n := 0;
    while n < |rs|
      invariant n <= |rs| && forall j :: 0 <= j < n ==> !EndsWait(rs[j])
    {
      var r := rs[n];
      if r.ret > 0 && (r.status.Exited? || r.status.Signaled?) {
        FirstEndAt(rs, n);
        return Some(Finished);
      }
      if r.ret > 0 && r.status.Stopped? {
        FirstEndAt(rs, n);
        return Some(Suspended(r.ret));
      }
      n := n + 1;
    }
    FirstEndAt(rs, n);
    e := None;
  }

  /** The first ending reply is where the scan stops. */
  lemma FirstEndAt(rs: seq<Reply>, n: nat)
    requires n <= |rs| && (n < |rs| ==> EndsWait(rs[n]))
    requires forall j :: 0 <= j < n ==> !EndsWait(rs[j])
    ensures FirstEnd(rs) == n
  {
  }

  /** How fork_and_run ends. */
  datatype Run =
    | RunExit(status: int)                          // setup_pipes exited
    | Background(children: seq<Pid>)                // returned without waiting
    | Foreground(ends: seq<WaitEnd>)                // waited for every child in turn
    | Blocked(at: nat, ends: seq<WaitEnd>)          // still waiting for child at

  /**
   * fork_and_run: set up the pipeline; in background return at once, in
   * foreground wait for children[0], children[1], ... in that order. The
   * waitpid replies for each pid are given by replies.
   */
  method ForkAndRun(t: FdTable, len: nat, bg: int, os: Os, replies: Pid -> seq<Reply>) returns (r: Run)
    requires t.Valid()
    modifies t
    ensures t.Valid()
    ensures !r.RunExit? ==> t.open == old(t.open) && t.next == old(t.next) + 2 * PipesMade(len, len)
    ensures r.RunExit? <==> exists k :: 0 <= k < len && !StageOk(os, old(t.next), len, k)
    ensures r.RunExit? ==> r.status == 1
    ensures !r.RunExit? ==> (r.Background? <==> bg == TRUE)
    ensures r.Background? ==>
      |r.children| == len && forall j :: 0 <= j < len ==> os.fork(j) == Some(r.children[j])
    ensures r.Foreground? ==>
      |r.ends| == len && forall j :: 0 <= j < len ==>
        os.fork(j).Some? && WaitResult(replies(os.fork(j).value)) == Some(r.ends[j])
    ensures r.Blocked? ==>
      r.at < len && |r.ends| == r.at && os.fork(r.at).Some? &&
      WaitResult(replies(os.fork(r.at).value)) == None &&
      forall j :: 0 <= j < r.at ==> os.fork(j).Some? && WaitResult(replies(os.fork(j).value)) == Some(r.ends[j])
  {
    ghost var base, next0 := t.open, t.next;
    var out, stages := SetupPipes(t, len, os);
    if out.SetupExit? {
      return RunExit(1);
    }
    if TRUE == bg {
      return Background(seq(len, j requires 0 <= j < len => stages[j].pid));
    }
    forall j | 0 <= j < len
      ensures os.fork(j).Some? && stages[j].pid == os.fork(j).value
    {
      assert |stages| == len;
      assert StageOk(os, next0, len, j);
      assert stages[j] == StageAt(os, base, next0, len, j);
    }
    var ends := [];
    for i := 0 to len
      invariant t.Valid() && t.open == base && t.next == next0 + 2 * PipesMade(len, len)
      invariant |ends| == i
      invariant forall j :: 0 <= j < i ==> os.fork(j).Some? && WaitResult(replies(os.fork(j).value)) == Some(ends[j])
    {
      var e := BlockingWait(replies(stages[i].pid));
      if e.None? {
        return Blocked(i, ends);
      }
      ends := ends + [e.value];
    }
    r := Foreground(ends);
  }
}
