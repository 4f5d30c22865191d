/** The program Ensuring_data_reaches_disk/replace_an_existing_file.c and the full_write it is
    built on, run against FileSystem.  A run records every state it passes through, so that a
    claim about the recorded states is a claim about a crash at any step. */
module DurableReplace {
  import opened FileSystem
  import opened CTypes

  const SYS_ERR := 3

  /** What one call of write does: bytes taken, EINTR, or any other error. */
  datatype WriteResult = Wrote(count: nat) | Interrupted | Failed

  /** What full_write returns; Waiting when the given behaviour of write ends before it returns. */
  datatype WriteOutcome = Returned(count: int) | Waiting

  /** How a run ends: with an exit code, or still inside full_write. */
  datatype Exit = Exited(code: int) | Running

  /** Everything the program does not decide itself. */
  datatype Env = Env(
    openOk: bool, dirOpenOk: bool, writes: seq<WriteResult>, unlinkOk: bool,
    syncOk: bool, dirSyncOk: bool, closeOk: bool,
    tempOk: bool, temp: Name, inode: Inode, renameOk: bool, dirCloseOk: bool)

  class Disk {
    var now: State
    /** Every state since the disk was attached, in order; the last one is `now`. */
    ghost var trace: seq<State>

    ghost predicate Valid()
      reads this
    {
      trace != [] && trace[|trace| - 1] == now
    }

    constructor (s: State)
      ensures Valid() && now == s && trace == [s]
    {
      now := s;
      trace := [s];
    }

    /** The effect of one system call. */
    method Step(s: State)
      requires Valid()
      modifies this
      ensures Valid() && now == s && trace == old(trace) + [s]
    {
      now := s;
      trace := trace + [s];
    }
  }

  // ----- full_write

  /** s and t differ at most in that the file has had a part of buf appended, not yet synced. */
  ghost predicate Appended(s: State, t: State, inode: Inode, buf: Bytes)
    requires inode in s.files
  {
    && t.entries == s.entries && t.pending == s.pending
    && t.files.Keys == s.files.Keys
    && (forall i :: i in s.files && i != inode ==> t.files[i] == s.files[i])
    && exists k :: 0 <= k <= |buf| && t.files[inode].data == s.files[inode].data + buf[..k]
  }

  /** What full_write returns for a behaviour of write, with `left` bytes still to write. */
  function Outcome(writes: seq<WriteResult>, left: nat, written: nat, gotZero: bool): (r: WriteOutcome)
    ensures r.Returned? ==> -1 <= r.count <= written + left
    decreases |writes|
  {
    if left == 0 then Returned(written)
    else if writes == [] then Waiting
    else match writes[0]
      case Wrote(c) =>
        if c != 0 then Outcome(writes[1..], left - Min(c, left), written + Min(c, left), gotZero)
        else if gotZero then Returned(written)
        else Outcome(writes[1..], left, written, true)
      case Interrupted => Outcome(writes[1..], left, written, gotZero)
      case Failed => Returned(if written != 0 then written else -1)
  }

  /** How many calls of write took nothing. */
  function Zeros(writes: seq<WriteResult>): nat {
    if writes == [] then 0 else (if writes[0] == Wrote(0) then 1 else 0) + Zeros(writes[1..])
  }

  /** Less than everything is returned only after an error or a second zero, -1 only after an error and only if
      nothing was written; while neither has occurred the function goes on. */
  lemma {:induction false} OutcomeReasons(writes: seq<WriteResult>, left: nat, written: nat, gotZero: bool)
    ensures var r := Outcome(writes, left, written, gotZero); var zeros := Zeros(writes) + if gotZero then 1 else 0;
            && (r.Returned? && r.count != written + left ==> Failed in writes || zeros >= 2)
            && (r.Returned? && r.count < written ==> r.count == -1 && written == 0 && Failed in writes)
            && (r.Waiting? ==> Failed !in writes && zeros <= 1)
    decreases |writes|
  {
    if left > 0 && writes != [] {
      match writes[0]
      case Wrote(c) =>
        if c != 0 {
          OutcomeReasons(writes[1..], left - Min(c, left), written + Min(c, left), gotZero);
        } else if !gotZero {
          OutcomeReasons(writes[1..], left, written, true);
        }
      case Interrupted =>
        OutcomeReasons(writes[1..], left, written, gotZero);
      case Failed =>
    }
  }

  /** The bytes taken and the calls that took nothing, among the first k calls of write. */
  function Taken(writes: seq<WriteResult>, k: nat): nat
    requires k <= |writes|
  {
    if k == 0 then 0 else Taken(writes, k - 1) + if writes[k - 1].Wrote? then writes[k - 1].count else 0
  }

  function ZerosTo(writes: seq<WriteResult>, k: nat): nat
    requires k <= |writes|
  {
    if k == 0 then 0 else ZerosTo(writes, k - 1) + if writes[k - 1] == Wrote(0) then 1 else 0
  }

  /** After k calls full_write returns: all len bytes have been taken, the last call has failed for a reason other than
      an interruption, or two calls have taken nothing. */
  predicate Over(writes: seq<WriteResult>, len: nat, k: nat)
    requires k <= |writes|
  {
    Taken(writes, k) >= len || (k > 0 && writes[k - 1] == Failed) || ZerosTo(writes, k) >= 2
  }

  lemma {:induction false} OutcomeSoFar(writes: seq<WriteResult>, len: nat, k: nat)
    requires k <= |writes| && forall j :: 0 <= j < k ==> !Over(writes, len, j)
    requires k > 0 ==> writes[k - 1] != Failed && ZerosTo(writes, k) < 2
    ensures Outcome(writes, len, 0, false)
         == var n := Min(Taken(writes, k), len); Outcome(writes[k..], len - n, n, ZerosTo(writes, k) == 1)
  {
    if k == 0 {
      assert writes[0..] == writes;
    } else {
      assert !Over(writes, len, k - 1);
      OutcomeSoFar(writes, len, k - 1);
      assert writes[k - 1..][0] == writes[k - 1] && writes[k - 1..][1..] == writes[k..];
    }
  }

  /** What full_write returns when it is over after k calls and not before: everything, what has been taken so far,
      or -1 if a call fails before a byte has been taken. */
  lemma OutcomeWhenOver(writes: seq<WriteResult>, len: nat, k: nat)
    requires k <= |writes| && Over(writes, len, k) && forall j :: 0 <= j < k ==> !Over(writes, len, j)
    ensures Outcome(writes, len, 0, false) == Returned(
              if Taken(writes, k) >= len then len
              else if Taken(writes, k) == 0 && writes[k - 1] == Failed then -1
              else Taken(writes, k))
  {
    if k == 0 {
      assert Taken(writes, 0) == 0;
    } else {
      assert !Over(writes, len, k - 1);
      OutcomeSoFar(writes, len, k - 1);
      assert writes[k - 1..][0] == writes[k - 1] && writes[k - 1..][1..] == writes[k..];
    }
  }

  lemma OutcomeWaits(writes: seq<WriteResult>, len: nat)
    requires forall j :: 0 <= j <= |writes| ==> !Over(writes, len, j)
    ensures Outcome(writes, len, 0, false) == Waiting
  {
    var k := |writes|;
    assert !Over(writes, len, k);
    OutcomeSoFar(writes, len, k);
    assert writes[k..] == [];
  }

  /** Call k fails before any byte has been taken, and full_write has got to it. */
  predicate FailsAtOnce(writes: seq<WriteResult>, k: nat)
    requires k < |writes|
  {
    writes[k] == Failed && Failed !in writes[..k] && Taken(writes, k) == 0 && ZerosTo(writes, k) < 2
  }

  lemma {:induction false} CountsGrow(writes: seq<WriteResult>, j: nat, k: nat)
    requires j <= k <= |writes|
    ensures Taken(writes, j) <= Taken(writes, k) && ZerosTo(writes, j) <= ZerosTo(writes, k)
    decreases k
  {
    if j < k {
      CountsGrow(writes, j, k - 1);
    }
  }

  lemma NotOverBefore(writes: seq<WriteResult>, len: nat, k: nat)
    requires k < |writes| && len > 0 && FailsAtOnce(writes, k)
    ensures Over(writes, len, k + 1) && forall j :: 0 <= j <= k ==> !Over(writes, len, j)
  {
    forall j | 0 <= j <= k
      ensures !Over(writes, len, j)
    {
      CountsGrow(writes, j, k);
      assert j > 0 ==> writes[j - 1] == writes[..k][j - 1];
    }
  }

  /** -1 is returned exactly if a call fails before any byte has been taken and before two calls take nothing. */
  lemma MinusOneIff(writes: seq<WriteResult>, len: nat)
    ensures Outcome(writes, len, 0, false) == Returned(-1) <==>
            len > 0 && exists k :: 0 <= k < |writes| && FailsAtOnce(writes, k)
  {
    if k :| len > 0 && 0 <= k < |writes| && FailsAtOnce(writes, k) {
      NotOverBefore(writes, len, k);
      OutcomeWhenOver(writes, len, k + 1);
    }
    if Outcome(writes, len, 0, false) == Returned(-1) {
      MinusOneMeans(writes, len);
    }
  }

  lemma MinusOneMeans(writes: seq<WriteResult>, len: nat)
    requires Outcome(writes, len, 0, false) == Returned(-1)
    ensures len > 0 && exists k :: 0 <= k < |writes| && FailsAtOnce(writes, k)
  {
    if k :| 0 <= k <= |writes| && Over(writes, len, k) {
      var first := FirstOver(writes, len, k);
      OutcomeWhenOver(writes, len, first);
      var at := first - 1;
      assert !Over(writes, len, at);
      forall j | 0 <= j < at
        ensures writes[j] != Failed
      {
        assert !Over(writes, len, j + 1);
      }
      assert FailsAtOnce(writes, at);
    } else {
      OutcomeWaits(writes, len);
    }
  }

  lemma FirstOver(writes: seq<WriteResult>, len: nat, k: nat) returns (first: nat)
    requires k <= |writes| && Over(writes, len, k)
    ensures first <= k && Over(writes, len, first) && forall j :: 0 <= j < first ==> !Over(writes, len, j)
  {
    first := 0;
    while !Over(writes, len, first)
      invariant first <= k && forall j :: 0 <= j < first ==> !Over(writes, len, j)
      decreases k - first
    {
      first := first + 1;
    }
  }

  /** The behaviour of write lets n bytes through. */
  predicate WritesAll(writes: seq<WriteResult>, n: nat) {
    Outcome(writes, n, 0, false) == Returned(n)
  }

  /** Since a run had the trace t and the state s, the first `written` bytes were appended and nothing else. */
  ghost predicate Writing(disk: Disk, t: seq<State>, s: State, inode: Inode, buf: Bytes, written: nat)
    requires inode in s.files
    reads disk
  {
    && disk.Valid() && written <= |buf|
    && |disk.trace| >= |t| && disk.trace[..|t|] == t
    && (forall k :: |t| <= k < |disk.trace| ==> Appended(s, disk.trace[k], inode, buf))
    && Appended(s, disk.now, inode, buf)
    && disk.now.files[inode].data == s.files[inode].data + buf[..written]
  }

  /** A call of write that takes n bytes. */
  method WritePart(disk: Disk, inode: Inode, buf: Bytes, written: nat, n: nat, ghost t: seq<State>, ghost s: State)
    requires inode in s.files && Writing(disk, t, s, inode, buf, written) && written + n <= |buf|
    modifies disk
    ensures Writing(disk, t, s, inode, buf, written + n)
  {
    assert buf[..written] + buf[written..written + n] == buf[..written + n];
    disk.Step(Append(disk.now, inode, buf[written..written + n]));
  }

  /** full_write, for any behaviour of write.  Whatever it returns, exactly that prefix has been
      appended; OutcomeReasons says when that is less than everything. */
  method FullWrite(disk: Disk, inode: Inode, buf: Bytes, writes: seq<WriteResult>) returns (r: WriteOutcome)
    requires disk.Valid() && inode in disk.now.files
    modifies disk
    ensures disk.Valid() && |disk.trace| >= |old(disk.trace)| && disk.trace[..|old(disk.trace)|] == old(disk.trace)
    ensures forall k :: |old(disk.trace)| <= k < |disk.trace| ==> Appended(old(disk.now), disk.trace[k], inode, buf)
    ensures Appended(old(disk.now), disk.now, inode, buf)
    ensures r.Returned? ==>
              var n := if r.count == -1 then 0 else r.count;
              0 <= n <= |buf| && disk.now.files[inode].data == old(disk.now.files[inode].data) + buf[..n]
    ensures r == Outcome(writes, |buf|, 0, false)
  {
    var written, got_zero, used := 0, false, 0;
    ghost var start := disk.now;
    assert buf[..0] == [];
    while written < |buf|
      invariant 0 <= written <= |buf| && used <= |writes|
      invariant Writing(disk, old(disk.trace), start, inode, buf, written)
      invariant Outcome(writes[used..], |buf| - written, written, got_zero) == Outcome(writes, |buf|, 0, false)
      decreases |writes| - used
    {
      if used == |writes| {
        return Waiting;
      }
      assert writes[used..][1..] == writes[used + 1..];
      var ret := writes[used];
      used := used + 1;
      match ret
      case Wrote(c) =>
        var n := Min(c, |buf| - written);
        if n == 0 {
          if got_zero {
            return Returned(written);
          }
          got_zero := true;
        } else {
          WritePart(disk, inode, buf, written, n, old(disk.trace), start);
          written := written + n;
        }
      case Interrupted =>
      case Failed =>
        return Returned(if written != 0 then written else -1);
    }
    return Returned(written);
  }

  // ----- What the states of a run look like, and what a crash in them leaves

  /** The content is on disk under the name: entry and data durable, nothing pending. */
  ghost predicate Durable(s: State, name: Name, content: Bytes) {
    s.pending == [] && name in s.entries && s.entries[name] in s.files
    && s.files[s.entries[name]] == File(content, true)
  }

  /** As Durable, except that operations on other names may be pending. */
  ghost predicate StillOld(s: State, name: Name, content: Bytes) {
    && name in s.entries && s.entries[name] in s.files
    && s.files[s.entries[name]] == File(content, true)
    && Untouched(s.pending, name)
  }

  /** StillOld, and then the renaming of a file with the new content. */
  ghost predicate Renamed(s: State, name: Name, old1: Bytes, new2: Bytes) {
    && s.pending != [] && StillOld(s.(pending := s.pending[..|s.pending| - 1]), name, old1)
    && var op := s.pending[|s.pending| - 1];
       && op.Rename? && op.to == name && op.from != name
       && op.inode in s.files && op.inode != s.entries[name] && s.files[op.inode].data == new2
  }

  lemma StillOldSafe(s: State, name: Name, content: Bytes)
    requires StillOld(s, name, content)
    ensures CrashSafe(s, name, content, content) && Shows(s, name, content)
  {
    UntouchedKeepsEntry(s.entries, s.pending, name);
    forall disk | CrashLeaves(s, disk)
      ensures name in disk && disk[name] == content
    {
      var mask: seq<bool> :| |mask| == |s.pending| && Recovers(s, EntriesAfter(s, mask), disk);
      KeptIsUntouched(s.pending, mask, name);
      UntouchedKeepsEntry(s.entries, Kept(s.pending, mask), name);
    }
  }

  lemma RenamedShowsNew(s: State, name: Name, old1: Bytes, new2: Bytes)
    requires Renamed(s, name, old1, new2)
    ensures Shows(s, name, new2)
  {
  }

  /** After the rename, a crash is harmless exactly when the new data had been synced before. */
  lemma RenamedSafeIffSynced(s: State, name: Name, old1: Bytes, new2: Bytes)
    requires Renamed(s, name, old1, new2)
    ensures CrashSafe(s, name, old1, new2) <==> s.files[s.pending[|s.pending| - 1].inode].synced
  {
    var n := |s.pending| - 1;
    var op := s.pending[n];
    var s0 := s.(pending := s.pending[..n]);
    if s.files[op.inode].synced {
      forall disk | CrashLeaves(s, disk)
        ensures name in disk && (disk[name] == old1 || disk[name] == new2)
      {
        var mask: seq<bool> :| |mask| == |s.pending| && Recovers(s, EntriesAfter(s, mask), disk);
        KeptIsUntouched(s0.pending, mask[..n], name);
        UntouchedKeepsEntry(s.entries, Kept(s0.pending, mask[..n]), name);
        var kept := Kept(s0.pending, mask[..n]);
        if mask[n] {
          assert (kept + [op])[..|kept|] == kept;
        } else {
          assert kept + [] == kept;
        }
      }
    } else {
      GarbageAfterUnsyncedRename(s, name, old1, new2, old1 + new2 + [0]);
    }
  }

  /** Had the new data not been synced, a crash after the rename could leave anything. */
  lemma GarbageAfterUnsyncedRename(s: State, name: Name, old1: Bytes, new2: Bytes, garbage: Bytes)
    requires Renamed(s, name, old1, new2) && !s.files[s.pending[|s.pending| - 1].inode].synced
    ensures exists disk :: CrashLeaves(s, disk) && name in disk && disk[name] == garbage
  {
    var mask := seq(|s.pending|, _ => true);
    KeepAll(s.pending, mask);
    var entries := EntriesAfter(s, mask);
    var disk := map n | n in entries ::
               if n == name || entries[n] !in s.files then garbage else s.files[entries[n]].data;
    assert entries[name] == s.pending[|s.pending| - 1].inode;
    assert Recovers(s, entries, disk);
    assert CrashLeaves(s, disk);
  }

  /** The fsync of the directory is needed too: until then a crash may leave either version. */
  lemma EitherMayBeLeft(s: State, name: Name, old1: Bytes, new2: Bytes)
    requires Renamed(s, name, old1, new2) && s.files[s.pending[|s.pending| - 1].inode].synced
    ensures exists disk :: CrashLeaves(s, disk) && name in disk && disk[name] == old1
    ensures exists disk :: CrashLeaves(s, disk) && name in disk && disk[name] == new2
  {
    var none, all := seq(|s.pending|, _ => false), seq(|s.pending|, _ => true);
    KeepNone(s.pending, none);
    KeepAll(s.pending, all);
    DiskAfter(s, none);
    DiskAfter(s, all);
    UntouchedKeepsEntry(s.entries, [], name);
  }

  /** The disk found if the masked operations survive and the rest of each file too. */
  function DiskOf(s: State, entries: map<Name, Inode>): map<Name, Bytes> {
    map n | n in entries :: if entries[n] in s.files then s.files[entries[n]].data else []
  }

  lemma DiskAfter(s: State, mask: seq<bool>)
    requires |mask| == |s.pending|
    ensures CrashLeaves(s, DiskOf(s, EntriesAfter(s, mask)))
  {
    assert Recovers(s, EntriesAfter(s, mask), DiskOf(s, EntriesAfter(s, mask)));
  }

  lemma {:induction false} KeepNone(ops: seq<DirOp>, mask: seq<bool>)
    requires |ops| == |mask| && forall i :: 0 <= i < |mask| ==> !mask[i]
    ensures Kept(ops, mask) == []
  {
    if ops != [] {
      KeepNone(ops[..|ops| - 1], mask[..|ops| - 1]);
    }
  }

  lemma {:induction false} KeepAll(ops: seq<DirOp>, mask: seq<bool>)
    requires |ops| == |mask| && forall i :: 0 <= i < |mask| ==> mask[i]
    ensures Kept(ops, mask) == ops
  {
    if ops != [] {
      KeepAll(ops[..|ops| - 1], mask[..|ops| - 1]);
    }
  }

  /** The first version is written over the existing file: until it is synced, a crash can leave anything. */
  lemma TruncationIsUnsafe(s: State, name: Name, spare: Inode, garbage: Bytes)
    requires s.pending == [] && name in s.entries
    ensures exists disk :: CrashLeaves(OpenTruncate(s, name, spare).0, disk) && name in disk && disk[name] == garbage
  {
    var t := OpenTruncate(s, name, spare).0;
    assert EntriesAfter(t, []) == s.entries;
    var disk := map n | n in s.entries ::
      if s.entries[n] == s.entries[name] || s.entries[n] !in s.files then garbage else s.files[s.entries[n]].data;
    assert Recovers(t, EntriesAfter(t, []), disk);
    assert CrashLeaves(t, disk);
  }

  // ----- The program

  /** A write has fallen short, and the file is unlinked for it. */
  predicate Unlinked(env: Env, len: nat) {
    var r := Outcome(env.writes, len, 0, false);
    r.Returned? && 0 <= r.count != len && env.unlinkOk
  }

  /** Every file but one is as it was. */
  ghost predicate OthersKept(s: State, t: State, inode: Inode) {
    forall i :: i in s.files && i != inode ==> i in t.files && t.files[i] == s.files[i]
  }

  /** The inode that open finds under a name, or the one it creates there. */
  function Target(s: State, name: Name, spare: Inode): Inode {
    if name in Visible(s) then Visible(s)[name] else spare
  }

  lemma OpenTruncateSees(s: State, name: Name, spare: Inode)
    ensures var (t, inode) := OpenTruncate(s, name, spare);
            && inode == Target(s, name, spare) && Visible(t) == Visible(s)[name := inode]
            && OthersKept(s, t, inode) && inode in t.files && t.files[inode] == File([], false)
  {
    VisibleAfter(s, Link(name, spare));
  }

  lemma VisibleAfter(s: State, op: DirOp)
    ensures Visible(s.(pending := s.pending + [op])) == ApplyOp(Visible(s), op)
  {
    assert (s.pending + [op])[..|s.pending|] == s.pending;
  }

  /** Version 1: truncates or creates the file, writes it, syncs it and then its directory. */
  method WriteFirst(disk: Disk, path: Name, message: Bytes, env: Env) returns (e: Exit, ghost done: bool)
    requires disk.Valid() && NoDangling(disk.now) && env.inode !in disk.now.files
    modifies disk
    ensures disk.Valid()
    ensures done ==> Durable(disk.now, path, message)
    ensures done <==> env.openOk && env.dirOpenOk && WritesAll(env.writes, |message|) && env.syncOk && env.dirSyncOk
    ensures e == if done && env.closeOk then Exited(0)
                 else if env.openOk && env.dirOpenOk && Outcome(env.writes, |message|, 0, false) == Waiting then Running
                 else Exited(SYS_ERR)
    ensures done ==> disk.now.files.Keys <= old(disk.now.files.Keys) + {env.inode}
    ensures done ==> disk.now.entries == old(Visible(disk.now))[path := Target(old(disk.now), path, env.inode)]
    ensures OthersKept(old(disk.now), disk.now, Target(old(disk.now), path, env.inode))
    ensures var names := old(Visible(disk.now))[path := Target(old(disk.now), path, env.inode)];
            Visible(disk.now) == if !env.openOk then old(Visible(disk.now))
                                 else if env.dirOpenOk && Unlinked(env, |message|) then names - {path}
                                 else names
  {
    done := false;
    if !env.openOk {
      return Exited(SYS_ERR), done;
    }
    var target := OpenTruncate(disk.now, path, env.inode);
    var inode := target.1;
    OpenTruncateSees(disk.now, path, env.inode);
    disk.Step(target.0);
    if !env.dirOpenOk {
      return Exited(SYS_ERR), done;
    }
    e, done := FillFirst(disk, path, inode, message, env);
  }

  /** Version 1 from its full_write on. */
  method FillFirst(disk: Disk, path: Name, inode: Inode, message: Bytes, env: Env) returns (e: Exit, ghost done: bool)
    requires disk.Valid() && inode in disk.now.files && disk.now.files[inode].data == []
    requires path in Visible(disk.now) && Visible(disk.now)[path] == inode
    modifies disk
    ensures disk.Valid()
    ensures done ==> Durable(disk.now, path, message)
    ensures done <==> WritesAll(env.writes, |message|) && env.syncOk && env.dirSyncOk
    ensures e == if done && env.closeOk then Exited(0)
                 else if Outcome(env.writes, |message|, 0, false) == Waiting then Running
                 else Exited(SYS_ERR)
    ensures done ==> disk.now.files.Keys == old(disk.now.files.Keys) && disk.now.entries == old(Visible(disk.now))
    ensures OthersKept(old(disk.now), disk.now, inode)
    ensures Visible(disk.now) == if Unlinked(env, |message|) then old(Visible(disk.now)) - {path}
                                 else old(Visible(disk.now))
  {
    done := false;
    var ret := FullWrite(disk, inode, message, env.writes);
    if ret.Waiting? {
      return Running, done;
    }
    if ret.count != |message| {
      if ret.count >= 0 && env.unlinkOk {
        VisibleAfter(disk.now, Unlink(path));
        disk.Step(Remove(disk.now, path));
      }
      return Exited(SYS_ERR), done;
    }
    assert message[..|message|] == message;
    if !env.syncOk {
      return Exited(SYS_ERR), done;
    }
    disk.Step(SyncFile(disk.now, inode));
    if !env.dirSyncOk {
      return Exited(SYS_ERR), done;
    }
    disk.Step(SyncDirectory(disk.now));
    done := true;
    if !env.closeOk {
      return Exited(SYS_ERR), done;
    }
    return Exited(0), done;
  }

  /** A crash here leaves one version whole, and so does looking without a crash. */
  ghost predicate OneVersion(s: State, path: Name, one: Bytes, other: Bytes) {
    CrashSafe(s, path, one, other) && (Shows(s, path, one) || Shows(s, path, other))
  }

  lemma StillOldIsOneVersion(s: State, path: Name, one: Bytes, other: Bytes)
    requires StillOld(s, path, one)
    ensures OneVersion(s, path, one, other)
  {
    StillOldSafe(s, path, one);
  }

  /** Writing to any other file leaves the old version as it was. */
  lemma AppendedIsStillOld(s: State, t: State, inode: Inode, buf: Bytes, path: Name, one: Bytes)
    requires inode in s.files && Appended(s, t, inode, buf)
    requires StillOld(s, path, one) && s.entries[path] != inode
    ensures StillOld(t, path, one)
  {
  }

  /** The run has gone from trace a to trace b, and every state added is safe. */
  ghost predicate SafeSteps(a: seq<State>, b: seq<State>, path: Name, one: Bytes, other: Bytes) {
    a <= b && forall k :: |a| <= k < |b| ==> OneVersion(b[k], path, one, other)
  }

  lemma SafeStepsJoin(a: seq<State>, b: seq<State>, c: seq<State>, path: Name, one: Bytes, other: Bytes)
    requires SafeSteps(a, b, path, one, other) && SafeSteps(b, c, path, one, other)
    ensures SafeSteps(a, c, path, one, other)
  {
    forall k | |a| <= k < |c|
      ensures OneVersion(c[k], path, one, other)
    {
      if k < |b| {
        assert c[k] == b[k];
      }
    }
  }

  /** A step to a state known to be safe. */
  method SafeStep(disk: Disk, s: State, ghost path: Name, ghost one: Bytes, ghost other: Bytes)
    requires disk.Valid() && OneVersion(s, path, one, other)
    modifies disk
    ensures disk.Valid() && disk.now == s && SafeSteps(old(disk.trace), disk.trace, path, one, other)
  {
    disk.Step(s);
  }

  /** full_write to another file than the one under the path. */
  method SafeFullWrite(disk: Disk, inode: Inode, buf: Bytes, writes: seq<WriteResult>,
                       ghost path: Name, ghost one: Bytes, ghost other: Bytes)
    returns (r: WriteOutcome)
    requires disk.Valid() && inode in disk.now.files
    requires StillOld(disk.now, path, one) && disk.now.entries[path] != inode
    modifies disk
    ensures disk.Valid() && SafeSteps(old(disk.trace), disk.trace, path, one, other)
    ensures StillOld(disk.now, path, one)
    ensures disk.now.entries == old(disk.now.entries) && disk.now.pending == old(disk.now.pending)
    ensures inode in disk.now.files && OthersKept(old(disk.now), disk.now, inode)
    ensures r == Returned(|buf|) ==> disk.now.files[inode].data == old(disk.now.files[inode].data) + buf
    ensures r == Outcome(writes, |buf|, 0, false)
  {
    ghost var start := disk.now;
    r := FullWrite(disk, inode, buf, writes);
    forall k | |old(disk.trace)| <= k < |disk.trace|
      ensures OneVersion(disk.trace[k], path, one, other)
    {
      AppendedIsStillOld(start, disk.trace[k], inode, buf, path, one);
      StillOldIsOneVersion(disk.trace[k], path, one, other);
    }
    AppendedIsStillOld(start, disk.now, inode, buf, path, one);
    assert buf[..|buf|] == buf;
  }

  /** A step that leaves the old version as it was. */
  method OldStep(disk: Disk, s: State, ghost start: seq<State>, ghost path: Name, ghost one: Bytes, ghost other: Bytes)
    requires disk.Valid() && StillOld(s, path, one) && SafeSteps(start, disk.trace, path, one, other)
    modifies disk
    ensures disk.Valid() && disk.now == s && SafeSteps(start, disk.trace, path, one, other)
  {
    StillOldIsOneVersion(s, path, one, other);
    SafeStep(disk, s, path, one, other);
    SafeStepsJoin(start, old(disk.trace), disk.trace, path, one, other);
  }

  /** The temporary file is under its own name, and holds the message. */
  ghost predicate TempHolds(s: State, path: Name, env: Env, message: Bytes) {
    && env.inode in s.files && s.files[env.inode].data == message
    && path in s.entries && s.entries[path] != env.inode
    && env.temp in Visible(s) && Visible(s)[env.temp] == env.inode
  }

  lemma CreateTempStep(s: State, path: Name, env: Env, before: Bytes)
    requires Durable(s, path, before) && env.temp !in Visible(s) && env.inode !in s.files
    ensures var t := CreateTemp(s, env.temp, env.inode);
            && StillOld(t, path, before) && TempHolds(t, path, env, [])
            && Visible(t) == Visible(s)[env.temp := env.inode]
  {
    VisibleAfter(s, Link(env.temp, env.inode));
  }

  lemma RemoveKeeps(s: State, temp: Name, path: Name, one: Bytes)
    requires StillOld(s, path, one) && temp != path
    ensures var t := Remove(s, temp); StillOld(t, path, one) && Visible(t) == Visible(s) - {temp}
  {
    VisibleAfter(s, Unlink(temp));
  }

  /** unlink of the temporary file. */
  method RemoveTemp(disk: Disk, temp: Name, ghost start: seq<State>,
                    ghost path: Name, ghost one: Bytes, ghost other: Bytes)
    requires disk.Valid() && StillOld(disk.now, path, one) &&
             temp != path && SafeSteps(start, disk.trace, path, one, other)
    modifies disk
    ensures disk.Valid() && SafeSteps(start, disk.trace, path, one, other)
    ensures StillOld(disk.now, path, one) && disk.now.files == old(disk.now.files)
    ensures Visible(disk.now) == old(Visible(disk.now)) - {temp}
  {
    RemoveKeeps(disk.now, temp, path, one);
    OldStep(disk, Remove(disk.now, temp), start, path, one, other);
  }

  /** The full_write of version 2 and the handling of its result. */
  method WriteTemp(disk: Disk, path: Name, message: Bytes, env: Env, ghost before: Bytes) returns (e: Exit)
    requires disk.Valid() && StillOld(disk.now, path, before) && TempHolds(disk.now, path, env, []) && env.temp != path
    modifies disk
    ensures disk.Valid() && SafeSteps(old(disk.trace), disk.trace, path, before, message)
    ensures StillOld(disk.now, path, before)
    ensures e == Exited(0) ==> TempHolds(disk.now, path, env, message)
    ensures e == match Outcome(env.writes, |message|, 0, false)
                 case Waiting => Running
                 case Returned(n) => if n == |message| then Exited(0) else Exited(SYS_ERR)
    ensures Visible(disk.now) == old(Visible(disk.now)) - if Unlinked(env, |message|) then {env.temp} else {}
    ensures OthersKept(old(disk.now), disk.now, env.inode)
  {
    assert Visible(disk.now) - {} == Visible(disk.now);
    var ret := SafeFullWrite(disk, env.inode, message, env.writes, path, before, message);
    if ret.Waiting? {
      return Running;
    }
    if ret.count != |message| {
      if ret.count >= 0 && env.unlinkOk {
        RemoveTemp(disk, env.temp, old(disk.trace), path, before, message);
      }
      return Exited(SYS_ERR);
    }
    assert [] + message == message;
    return Exited(0);
  }

  /** Version 2 up to the close of the temporary file; on success that file is complete and synced. */
  method Prepare(disk: Disk, path: Name, message: Bytes, env: Env, ghost before: Bytes) returns (e: Exit)
    requires disk.Valid() && Durable(disk.now, path, before)
    requires env.temp !in Visible(disk.now) && env.inode !in disk.now.files
    modifies disk
    ensures disk.Valid() && SafeSteps(old(disk.trace), disk.trace, path, before, message)
    ensures StillOld(disk.now, path, before)
    ensures e == Exited(0) ==> TempHolds(disk.now, path, env, message) && disk.now.files[env.inode].synced
    ensures e == if !env.tempOk then Exited(SYS_ERR)
                 else if Outcome(env.writes, |message|, 0, false) == Waiting then Running
                 else if WritesAll(env.writes, |message|) && env.syncOk && env.closeOk then Exited(0)
                 else Exited(SYS_ERR)
    ensures Visible(disk.now) ==
            if env.tempOk && !Unlinked(env, |message|) then old(Visible(disk.now))[env.temp := env.inode]
            else old(Visible(disk.now))
    ensures OthersKept(old(disk.now), disk.now, env.inode)
  {
    if !env.tempOk {
      return Exited(SYS_ERR);
    }
    ghost var start := disk.trace;
    CreateTempStep(disk.now, path, env, before);
    OldStep(disk, CreateTemp(disk.now, env.temp, env.inode), start, path, before, message);
    ghost var created := disk.trace;
    e := WriteTemp(disk, path, message, env, before);
    SafeStepsJoin(start, created, disk.trace, path, before, message);
    if e == Exited(0) {
      if !env.syncOk {
        return Exited(SYS_ERR);
      }
      OldStep(disk, SyncFile(disk.now, env.inode), start, path, before, message);
      if !env.closeOk {
        return Exited(SYS_ERR);
      }
    }
  }

  /** The names after version 2: the new file has replaced the old one under the path and lost its own name, or it is
      still under its own name, or it was removed or never created. */
  function Afterwards(names: map<Name, Inode>, path: Name, len: nat, env: Env): map<Name, Inode> {
    if !env.tempOk || Unlinked(env, len) then names
    else if WritesAll(env.writes, len) && env.syncOk && env.closeOk && env.renameOk then names[path := env.inode]
    else names[env.temp := env.inode]
  }

  /** Version 2: a temporary file is written and synced, renamed over the path, and the directory synced.
      Every state passed through is safe; `done` means that the last directory fsync succeeded, and then the
      new version is durable; nothing short of the rename touches the old one. */
  method ReplaceWith(disk: Disk, path: Name, message: Bytes, env: Env, ghost before: Bytes)
    returns (e: Exit, ghost done: bool)
    requires disk.Valid() && Durable(disk.now, path, before)
    requires env.temp !in Visible(disk.now) && env.inode !in disk.now.files
    modifies disk
    ensures disk.Valid() && SafeSteps(old(disk.trace), disk.trace, path, before, message)
    ensures done ==> Durable(disk.now, path, message)
    ensures !env.renameOk ==> !done && StillOld(disk.now, path, before)
    ensures Visible(disk.now) == Afterwards(old(Visible(disk.now)), path, |message|, env)
    ensures OthersKept(old(disk.now), disk.now, env.inode)
    ensures done <==> && env.tempOk && WritesAll(env.writes, |message|) && env.syncOk
                      && env.closeOk && env.renameOk && env.dirSyncOk
    ensures e == if done && env.dirCloseOk then Exited(0)
                 else if env.tempOk && Outcome(env.writes, |message|, 0, false) == Waiting then Running
                 else Exited(SYS_ERR)
  {
    done := false;
    e := Prepare(disk, path, message, env, before);
    if e == Exited(0) {
      ghost var t := disk.trace;
      ghost var v := old(Visible(disk.now));
      assert (v[env.temp := env.inode] - {env.temp})[path := env.inode] == v[path := env.inode];
      e, done := Publish(disk, path, message, env, before);
      SafeStepsJoin(old(disk.trace), t, disk.trace, path, before, message);
    }
  }

  /** The steps of version 2 from the rename on. */
  method Publish(disk: Disk, path: Name, message: Bytes, env: Env, ghost before: Bytes)
    returns (e: Exit, ghost done: bool)
    requires disk.Valid() && StillOld(disk.now, path, before) && env.temp != path
    requires TempHolds(disk.now, path, env, message) && disk.now.files[env.inode].synced
    modifies disk
    ensures disk.Valid() && SafeSteps(old(disk.trace), disk.trace, path, before, message)
    ensures done ==> Durable(disk.now, path, message)
    ensures !env.renameOk ==> !done && StillOld(disk.now, path, before)
    ensures Visible(disk.now) == if env.renameOk then (old(Visible(disk.now)) - {env.temp})[path := env.inode]
                                 else old(Visible(disk.now))
    ensures disk.now.files == old(disk.now.files)
    ensures done <==> env.renameOk && env.dirSyncOk
    ensures e == if done && env.dirCloseOk then Exited(0) else Exited(SYS_ERR)
  {
    done := false;
    if !env.renameOk {
      return Exited(SYS_ERR), done;
    }
    ghost var t0 := disk.trace;
    MoveIsOneVersion(disk.now, env.temp, path, before, message);
    SafeStep(disk, Move(disk.now, env.temp, path), path, before, message);
    if !env.dirSyncOk {
      return Exited(SYS_ERR), done;
    }
    ghost var t1 := disk.trace;
    SafeStep(disk, SyncDirectory(disk.now), path, before, message);
    SafeStepsJoin(t0, t1, disk.trace, path, before, message);
    done := true;
    if !env.dirCloseOk {
      return Exited(SYS_ERR), done;
    }
    return Exited(0), done;
  }

  /** Both halves of the rename: pending it may be lost, synced it is there. */
  lemma MoveIsOneVersion(s: State, temp: Name, path: Name, before: Bytes, message: Bytes)
    requires StillOld(s, path, before) && temp != path && temp in Visible(s)
    requires var i := Visible(s)[temp]; i in s.files && s.files[i] == File(message, true) && s.entries[path] != i
    ensures Visible(Move(s, temp, path)) == (Visible(s) - {temp})[path := Visible(s)[temp]]
    ensures OneVersion(Move(s, temp, path), path, before, message)
    ensures Durable(SyncDirectory(Move(s, temp, path)), path, message)
    ensures OneVersion(SyncDirectory(Move(s, temp, path)), path, before, message)
  {
    var t := Move(s, temp, path);
    VisibleAfter(s, Rename(temp, path, Visible(s)[temp]));
    assert t.pending[..|s.pending|] == s.pending;
    assert t.(pending := s.pending) == s;
    assert Renamed(t, path, before, message);
    RenamedSafeIffSynced(t, path, before, message);
    RenamedShowsNew(t, path, before, message);
    StillOldSafe(SyncDirectory(t), path, message);
  }

  /** The whole of main.  Version 1 counts from the moment its directory fsync has succeeded: from the
      state recorded then to the last one of the run, a crash leaves version 1 or version 2 whole. */
  method Run(disk: Disk, path: Name, message1: Bytes, message2: Bytes, env1: Env, env2: Env)
    returns (e: Exit, ghost first: bool, ghost second: bool, ghost since: nat)
    requires disk.Valid() && NoDangling(disk.now) && env1.inode !in disk.now.files
    requires env2.inode !in disk.now.files && env2.inode != env1.inode
    requires env2.temp !in Visible(disk.now) && env2.temp != path
    modifies disk
    ensures disk.Valid()
    ensures first ==> since < |disk.trace| && Durable(disk.trace[since], path, message1)
    ensures first ==> SafeSteps(disk.trace[..since], disk.trace, path, message1, message2)
    ensures first ==> forall k :: since <= k < |disk.trace| ==>
              && CrashSafe(disk.trace[k], path, message1, message2)
              && (Shows(disk.trace[k], path, message1) || Shows(disk.trace[k], path, message2))
    ensures second ==> first && Durable(disk.now, path, message2)
    ensures first <==> && env1.openOk && env1.dirOpenOk && WritesAll(env1.writes, |message1|)
                       && env1.syncOk && env1.dirSyncOk
    ensures second <==> && first && env1.closeOk && env2.tempOk && WritesAll(env2.writes, |message2|)
                        && env2.syncOk && env2.closeOk && env2.renameOk && env2.dirSyncOk
    ensures e == Exited(0) <==> second && env2.dirCloseOk
    ensures e.Exited? ==> e.code == 0 || e.code == 3
    ensures var v := old(Visible(disk.now));
            && (second ==> disk.now.entries == v[path := env2.inode])
            && (first && env1.closeOk ==>
                  Visible(disk.now)
                  == Afterwards(v[path := Target(old(disk.now), path, env1.inode)], path, |message2|, env2))
    ensures forall i :: i in old(disk.now.files) && i != Target(old(disk.now), path, env1.inode) ==>
              i in disk.now.files && disk.now.files[i] == old(disk.now.files[i])
  {
    second := false;
    e, first := WriteFirst(disk, path, message1, env1);
    ghost var t := disk.trace;
    since := |t| - 1;
    if first {
      StillOldIsOneVersion(disk.now, path, message1, message2);
      assert SafeSteps(t[..since], t, path, message1, message2);
    }
    if e == Exited(0) {
      e, second := ReplaceWith(disk, path, message2, env2, message1);
      SafeStepsJoin(t[..since], t, disk.trace, path, message1, message2);
      assert disk.trace[..since] == t[..since];
    }
  }
}
