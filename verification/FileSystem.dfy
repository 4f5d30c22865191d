/** A file system with volatile and durable state.

    The assumptions are those the replace sequence of Ensuring_data_reaches_disk rests on:
    fsync of a file makes its data durable; fsync of the directory makes its entries durable;
    after a crash a file with unsynced data may hold anything at all, and every directory
    operation since the last directory fsync may have reached the disk or not, independently
    of the others; a rename is one operation, so it reaches the disk whole or not at all. */
module FileSystem {

  type Name = string
  type Inode = nat
  type Bytes = seq<bv8>

  datatype File = File(data: Bytes, synced: bool)

  /** What a directory operation does to the entries. */
  datatype DirOp =
    | Link(name: Name, inode: Inode)
    | Unlink(name: Name)
    | Rename(from: Name, to: Name, inode: Inode)

  /** Files by inode, the entries on disk, the directory operations not yet known to be there. */
  datatype State = State(files: map<Inode, File>, entries: map<Name, Inode>, pending: seq<DirOp>)

  function ApplyOp(entries: map<Name, Inode>, op: DirOp): map<Name, Inode> {
    match op
    case Link(name, inode) => entries[name := inode]
    case Unlink(name) => entries - {name}
    case Rename(from, to, inode) => (entries - {from})[to := inode]
  }

  function Apply(entries: map<Name, Inode>, ops: seq<DirOp>): map<Name, Inode> {
    if ops == [] then entries else ApplyOp(Apply(entries, ops[..|ops| - 1]), ops[|ops| - 1])
  }

  /** The entries every running process sees. */
  function Visible(s: State): map<Name, Inode> {
    Apply(s.entries, s.pending)
  }

  /** Every name leads to a file. */
  ghost predicate NoDangling(s: State) {
    forall n :: n in Visible(s) ==> Visible(s)[n] in s.files
  }

  // ----- Crashes

  /** The operations of which the mask says that they reached the disk. */
  function Kept(ops: seq<DirOp>, mask: seq<bool>): (r: seq<DirOp>)
    requires |ops| == |mask|
  {
    if ops == [] then []
    else Kept(ops[..|ops| - 1], mask[..|ops| - 1]) + if mask[|ops| - 1] then [ops[|ops| - 1]] else []
  }

  /** The entries found after a crash in which the masked operations survived. */
  function EntriesAfter(s: State, mask: seq<bool>): map<Name, Inode>
    requires |mask| == |s.pending|
  {
    Apply(s.entries, Kept(s.pending, mask))
  }

  /** Whether the disk found after a crash in s can be `disk`, names to contents. */
  ghost predicate CrashLeaves(s: State, disk: map<Name, Bytes>) {
    exists mask: seq<bool> :: |mask| == |s.pending| && Recovers(s, EntriesAfter(s, mask), disk)
  }

  ghost predicate Recovers(s: State, entries: map<Name, Inode>, disk: map<Name, Bytes>) {
    && disk.Keys == entries.Keys
    && forall n :: n in disk && entries[n] in s.files && s.files[entries[n]].synced
                   ==> disk[n] == s.files[entries[n]].data
  }

  /** Every crash in s leaves the name holding one of the two contents, completely. */
  ghost predicate CrashSafe(s: State, name: Name, one: Bytes, other: Bytes) {
    forall disk :: CrashLeaves(s, disk) ==> name in disk && (disk[name] == one || disk[name] == other)
  }

  /** The name holds the content now, for every process that looks. */
  ghost predicate Shows(s: State, name: Name, content: Bytes) {
    name in Visible(s) && Visible(s)[name] in s.files && s.files[Visible(s)[name]].data == content
  }

  // ----- The system calls, each with its failure as a branch that changes nothing

  /** open(name, O_WRONLY | O_CREAT | O_TRUNC): an existing file loses its content, a missing one is created. */
  function OpenTruncate(s: State, name: Name, spare: Inode): (r: (State, Inode))
  {
    var v := Visible(s);
    if name in v then
      (s.(files := s.files[v[name] := File([], false)]), v[name])
    else
      (s.(files := s.files[spare := File([], false)], pending := s.pending + [Link(name, spare)]), spare)
  }

  function Append(s: State, inode: Inode, bytes: Bytes): State
    requires inode in s.files
  {
    s.(files := s.files[inode := File(s.files[inode].data + bytes, false)])
  }

  function SyncFile(s: State, inode: Inode): State
    requires inode in s.files
  {
    s.(files := s.files[inode := s.files[inode].(synced := true)])
  }

  function SyncDirectory(s: State): State {
    State(s.files, Visible(s), [])
  }

  function CreateTemp(s: State, name: Name, inode: Inode): State {
    s.(files := s.files[inode := File([], false)], pending := s.pending + [Link(name, inode)])
  }

  function Remove(s: State, name: Name): State {
    s.(pending := s.pending + [Unlink(name)])
  }

  function Move(s: State, from: Name, to: Name): State
    requires from in Visible(s)
  {
    s.(pending := s.pending + [Rename(from, to, Visible(s)[from])])
  }

  // ----- What pending operations can do to one name

  /** The operations leave the entry of the name alone. */
  ghost predicate Untouched(ops: seq<DirOp>, name: Name) {
    forall i :: 0 <= i < |ops| ==> Avoids(ops[i], name)
  }

  predicate Avoids(op: DirOp, name: Name) {
    match op
    case Link(n, _) => n != name
    case Unlink(n) => n != name
    case Rename(f, t, _) => f != name && t != name
  }

  lemma {:induction false} UntouchedKeepsEntry(entries: map<Name, Inode>, ops: seq<DirOp>, name: Name)
    requires Untouched(ops, name) && name in entries
    ensures name in Apply(entries, ops) && Apply(entries, ops)[name] == entries[name]
  {
    if ops != [] {
      UntouchedKeepsEntry(entries, ops[..|ops| - 1], name);
      assert Avoids(ops[|ops| - 1], name);
    }
  }

  lemma {:induction false} KeptIsUntouched(ops: seq<DirOp>, mask: seq<bool>, name: Name)
    requires |ops| == |mask| && Untouched(ops, name)
    ensures Untouched(Kept(ops, mask), name)
  {
    if ops != [] {
      KeptIsUntouched(ops[..|ops| - 1], mask[..|ops| - 1], name);
      assert Avoids(ops[|ops| - 1], name);
    }
  }
}
