/**
 Shared vocabulary of the staging-index model: the error taxonomy, the
 result wrapper every fallible operation returns, and the index entry with
 its two halves — the identity fields that describe what is staged, and the
 stat cache that only remembers what the filesystem looked like when the
 file was last examined.
 */
module Types {

  /** The failure kinds the index operations report. */
  datatype ErrorKind =
    | InvalidPath         // add: empty, absolute, trailing-slash or ".." path;
                          // write-tree: a name used as both file and directory
    | UnmergedConflict    // write-tree over an index holding stages 1-3
    | Corrupt             // a persisted index that does not parse or check out,
                          // or a tree with a malformed child name
    | UnsupportedVersion  // a persisted index with a foreign signature/version
    | InvariantViolation  // a caller broke the sortedness contract

  datatype Result<+T> = Success(value: T) | Failure(error: ErrorKind)

  datatype Option<+T> = None | Some(value: T)

  /** Object ids are opaque: only equality matters. */
  type Oid = nat

  /** File-type and permission bits, e.g. 0o100644 = 33188. */
  type Mode = nat

  /** 0 = resolved, 1..3 = the sides of an unresolved conflict. */
  type Stage = s: nat | s <= 3

  datatype Time = Time(seconds: nat, nanoseconds: nat)

  /** Cached filesystem metadata; all-zero means "never stat'ed". */
  datatype StatCache = StatCache(
    ctime: Time,
    mtime: Time,
    dev: nat,
    ino: nat,
    uid: nat,
    gid: nat,
    flags: nat)

  const ZeroTime := Time(0, 0)
  const ZeroStat := StatCache(ZeroTime, ZeroTime, 0, 0, 0, 0, 0)

  datatype Entry = Entry(
    path: string,
    stage: Stage,
    id: Oid,
    mode: Mode,
    fileSize: nat,
    stat: StatCache)

  /** The part of an entry that says what is staged, as opposed to the stat cache. */
  datatype Identity = Identity(path: string, stage: Stage, id: Oid, mode: Mode, fileSize: nat)

  function IdentityOf(e: Entry): Identity
  {
    Identity(e.path, e.stage, e.id, e.mode, e.fileSize)
  }

  function Identities(idx: seq<Entry>): (r: seq<Identity>)
    ensures |r| == |idx|
    ensures forall k :: 0 <= k < |idx| ==> r[k] == IdentityOf(idx[k])
  {
    seq(|idx|, k requires 0 <= k < |idx| => IdentityOf(idx[k]))
  }

  /** Whether an entry's ctime and mtime carry no information. */
  predicate ZeroTimes(e: Entry)
  {
    e.stat.ctime.seconds == 0 && e.stat.mtime.seconds == 0
  }
}
