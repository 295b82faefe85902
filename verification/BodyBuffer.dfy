module StorageKind {
  datatype Kind = InMemory | OnDisk
}

/**
  What a request body storage is: bytes, a cursor and a closed flag. Both implementations of
  common/body_storage.go are specified by the calls below.
 */
module BodyBuffer {
  import opened Wrappers
  import opened Bytes
  import opened StorageKind

  datatype Error =
    | StorageClosed
    | NegativePosition
    | Eof
    | UnexpectedEof
    | TooLarge
    | DiskFault
    | ReadAfterClose

  datatype Whence = Start | Current | End

  datatype Buffer = Buffer(bytes: seq<byte>, cursor: nat, closed: bool)

  datatype Call =
    | Read(want: nat)     // into a slice of that length
    | Seek(offset: int, whence: Whence)
    | Bytes
    | Close

  datatype Outcome =
    | Got(data: seq<byte>, error: Option<Error>)
    | Moved(position: Result<int, Error>)
    | Content(content: Result<seq<byte>, Error>)
    | Done

  function Min(a: int, b: int): int { if a < b then a else b }

  function Target(b: Buffer, offset: int, whence: Whence): int {
    offset + match whence case Start => 0 case Current => b.cursor case End => |b.bytes|
  }

  /** The bytes that a read of that length delivers. */
  function Ahead(b: Buffer, want: nat): seq<byte> {
    if b.cursor >= |b.bytes| then [] else b.bytes[b.cursor..b.cursor + Min(want, |b.bytes| - b.cursor)]
  }

  /** A bytes.Reader reports the end even to an empty slice, a file does not. */
  predicate ReportsEnd(kind: Kind, b: Buffer, want: nat) {
    b.cursor >= |b.bytes| && (kind == InMemory || want > 0)
  }

  function After(b: Buffer, call: Call): Buffer {
    if b.closed then b
    else
      match call
      case Read(want) => b.(cursor := b.cursor + |Ahead(b, want)|)
      case Seek(offset, whence) => if Target(b, offset, whence) < 0 then b else b.(cursor := Target(b, offset, whence))
      case Bytes => b
      case Close => b.(closed := true)
  }

  function Answer(kind: Kind, b: Buffer, call: Call): Outcome {
    match call
    case Read(want) =>
      if b.closed then Got([], Some(StorageClosed))
      else Got(Ahead(b, want), if ReportsEnd(kind, b, want) then Some(Eof) else None)
    case Seek(offset, whence) =>
      Moved(if b.closed then Err(StorageClosed)
            else if Target(b, offset, whence) < 0 then Err(NegativePosition)
            else Ok(Target(b, offset, whence)))
    case Bytes => Content(if b.closed then Err(StorageClosed) else Ok(b.bytes))
    case Close => Done
  }

  // ------------------------------------------------------------------ one call

  /** A read takes the bytes at the cursor, as many as there are and were asked for, and moves past them. */
  lemma ReadTakes(kind: Kind, b: Buffer, want: nat)
    requires !b.closed
    ensures var r, b' := Answer(kind, b, Call.Read(want)), After(b, Call.Read(want));
            && r.Got? && b' == b.(cursor := b.cursor + |r.data|)
            && |r.data| <= want && (|r.data| < want ==> b'.cursor >= |b.bytes|)
            && (r.data != [] ==> b'.cursor <= |b.bytes| && r.data == b.bytes[b.cursor..b'.cursor])
  {
  }

  /** The end is reported on its own, behind the last byte; a disk storage needs a non-empty slice for it. */
  lemma ReadReportsEnd(b: Buffer, want: nat)
    requires !b.closed
    ensures Answer(InMemory, b, Call.Read(want)).error == if b.cursor < |b.bytes| then None else Some(Eof)
    ensures Answer(OnDisk, b, Call.Read(want)).error == if b.cursor < |b.bytes| || want == 0 then None else Some(Eof)
  {
  }

  /** A position is counted from the start, the cursor or the end; one before the start is refused. */
  lemma SeekMoves(kind: Kind, b: Buffer, position: int)
    requires !b.closed
    ensures var calls := {Call.Seek(position, Start), Call.Seek(position - b.cursor, Current),
                          Call.Seek(position - |b.bytes|, End)};
            forall call | call in calls ::
              if position >= 0 then Answer(kind, b, call) == Moved(Ok(position)) && After(b, call).cursor == position
              else Answer(kind, b, call) == Moved(Err(NegativePosition)) && After(b, call) == b
  {
  }

  /** The whole body at once, wherever the cursor stands. */
  lemma BytesGivesAll(kind: Kind, b: Buffer)
    requires !b.closed
    ensures Answer(kind, b, Call.Bytes) == Content(Ok(b.bytes)) && After(b, Call.Bytes) == b
  {
  }

  /** After a close every call is refused but another close, and nothing changes any more. */
  lemma ClosedRefuses(kind: Kind, b: Buffer, call: Call)
    ensures After(b, Call.Close).closed && After(b, Call.Close).bytes == b.bytes
    ensures b.closed ==>
              && After(b, call) == b
              && Answer(kind, b, call) ==
                 match call
                 case Read(_) => Got([], Some(StorageClosed))
                 case Seek(_, _) => Moved(Err(StorageClosed))
                 case Bytes => Content(Err(StorageClosed))
                 case Close => Done
  {
  }

  /** Rewound to any position in the body, a storage of either kind delivers any stretch from there. */
  lemma RewindAndRead(kind: Kind, b: Buffer, lo: nat, hi: nat)
    requires !b.closed && lo < hi <= |b.bytes|
    ensures Answer(kind, After(b, Call.Seek(lo, Start)), Call.Read(hi - lo)) == Got(b.bytes[lo..hi], None)
  {
  }

  // ------------------------------------------------------------------ runs of calls

  function AfterAll(b: Buffer, calls: seq<Call>): Buffer
    decreases |calls|
  {
    if calls == [] then b else AfterAll(After(b, calls[0]), calls[1..])
  }

  function Answers(kind: Kind, b: Buffer, calls: seq<Call>): seq<Outcome>
    decreases |calls|
  {
    if calls == [] then [] else [Answer(kind, b, calls[0])] + Answers(kind, After(b, calls[0]), calls[1..])
  }

  /** Somewhere in the run an empty slice is offered at or past the end of an open storage. */
  predicate EmptyReadAtEnd(b: Buffer, calls: seq<Call>)
    decreases |calls|
  {
    calls != [] && (
      || (calls[0] == Read(0) && !b.closed && b.cursor >= |b.bytes|)
      || EmptyReadAtEnd(After(b, calls[0]), calls[1..]))
  }

  /** A caller can tell a memory storage from a disk storage only by an empty read at the end. */
  lemma {:induction false} KindsAgreeIff(b: Buffer, calls: seq<Call>)
    ensures Answers(InMemory, b, calls) == Answers(OnDisk, b, calls) <==> !EmptyReadAtEnd(b, calls)
    decreases |calls|
  {
    if calls == [] {
    } else {
      var next := After(b, calls[0]);
      KindsAgreeIff(next, calls[1..]);
      var m, d := Answers(InMemory, b, calls), Answers(OnDisk, b, calls);
      assert m[1..] == Answers(InMemory, next, calls[1..]) && d[1..] == Answers(OnDisk, next, calls[1..]);
      assert m[0] == Answer(InMemory, b, calls[0]) && d[0] == Answer(OnDisk, b, calls[0]);
      assert m == [m[0]] + m[1..] && d == [d[0]] + d[1..];
    }
  }

  /** No run changes the bytes, and only a close closes. */
  lemma {:induction false} BytesNeverChange(b: Buffer, calls: seq<Call>)
    ensures AfterAll(b, calls).bytes == b.bytes
    ensures AfterAll(b, calls).closed <==> b.closed || Close in calls
    decreases |calls|
  {
    if calls == [] {
    } else {
      BytesNeverChange(After(b, calls[0]), calls[1..]);
    }
  }

  /** What a run of reads delivers, end to end. */
  function Delivered(outcomes: seq<Outcome>): seq<byte> {
    if outcomes == [] then []
    else (if outcomes[0].Got? then outcomes[0].data else []) + Delivered(outcomes[1..])
  }

  ghost predicate OnlyReads(calls: seq<Call>) {
    forall i | 0 <= i < |calls| :: calls[i].Read?
  }

  lemma Adjacent(bytes: seq<byte>, i: nat, j: nat, k: nat)
    requires i <= j <= k <= |bytes|
    ensures bytes[i..k] == bytes[i..j] + bytes[j..k]
  {
  }

  /** From the cursor, reads of any sizes deliver the body in order, without gap or repetition. */
  lemma {:induction false} ReadsInOrder(kind: Kind, b: Buffer, calls: seq<Call>)
    requires !b.closed && b.cursor <= |b.bytes| && OnlyReads(calls)
    ensures var end := AfterAll(b, calls).cursor;
            b.cursor <= end <= |b.bytes| && Delivered(Answers(kind, b, calls)) == b.bytes[b.cursor..end]
    decreases |calls|
  {
    if calls == [] {
    } else {
      var next, rest := After(b, calls[0]), calls[1..];
      ReadsInOrder(kind, next, rest);
      var all := Answers(kind, b, calls);
      assert all[0] == Answer(kind, b, calls[0]) && all[1..] == Answers(kind, next, rest);
      assert all[0].data == b.bytes[b.cursor..next.cursor];
      var end := AfterAll(next, rest).cursor;
      Adjacent(b.bytes, b.cursor, next.cursor, end);
    }
  }

  /** Once a read has reported the end, the whole body has been delivered. */
  lemma {:induction false} EndMeansAll(kind: Kind, b: Buffer, calls: seq<Call>)
    requires !b.closed && b.cursor <= |b.bytes| && OnlyReads(calls)
    requires Got([], Some(Eof)) in Answers(kind, b, calls)
    ensures Delivered(Answers(kind, b, calls)) == b.bytes[b.cursor..]
  {
    ReadsInOrder(kind, b, calls);
    EndIsReached(kind, b, calls);
  }

  lemma {:induction false} EndIsReached(kind: Kind, b: Buffer, calls: seq<Call>)
    requires !b.closed && b.cursor <= |b.bytes| && OnlyReads(calls)
    requires Got([], Some(Eof)) in Answers(kind, b, calls)
    ensures AfterAll(b, calls).cursor == |b.bytes|
    decreases |calls|
  {
    var next, rest := After(b, calls[0]), calls[1..];
    ReadsInOrder(kind, next, rest);
    if Answer(kind, b, calls[0]) != Got([], Some(Eof)) { EndIsReached(kind, next, rest); }
  }
}
