/** The readers and writers the guard is handed, as arbitrary finite behaviours. */
module ArchiveStreams {
  import opened Bytes

  const U64_RANGE: nat := U64_MAX + 1

  /** Counts the compressed bytes a decompressor has read. `total` is the true
      count; the atomic the guard loads wraps at 2^64. */
  class CompressedCounter {
    var total: nat

    constructor ()
      ensures total == 0
    {
      total := 0;
    }

    function Load(): nat
      reads this
    {
      total % U64_RANGE
    }
  }

  datatype IoError = Interrupted | UnexpectedEof | OtherError

  /** One `read` call: how many decompressed bytes are ready, or an error, and
      how many compressed bytes the decompressor drew to get there. */
  datatype ReadEvent =
    | Chunk(bytes: ByteString, drawn: nat)
    | Failure(error: IoError, drawn: nat)

  datatype ReadResult = Got(bytes: ByteString) | Failed(error: IoError)

  datatype Ending = AtEnd | Broken(error: IoError)

  /** The data a reader holds: what it yields before it ends or breaks. */
  function Stream(events: seq<ReadEvent>): ByteString {
    if events == [] then []
    else match events[0]
      case Chunk(bytes, _) => if bytes == [] then [] else bytes + Stream(events[1..])
      case Failure(error, _) => if error == Interrupted then Stream(events[1..]) else []
  }

  function EndingOf(events: seq<ReadEvent>): Ending {
    if events == [] then AtEnd
    else match events[0]
      case Chunk(bytes, _) => if bytes == [] then AtEnd else EndingOf(events[1..])
      case Failure(error, _) => if error == Interrupted then EndingOf(events[1..]) else Broken(error)
  }

  function Weight(events: seq<ReadEvent>): nat {
    if events == [] then 0
    else 1 + (if events[0].Chunk? then |events[0].bytes| else 0) + Weight(events[1..])
  }

  /** A decompressing reader: any finite mix of short reads, interruptions,
      an early end and an error. */
  class Reader {
    var events: seq<ReadEvent>
    var consumed: nat
    const counter: CompressedCounter

    constructor (events: seq<ReadEvent>, counter: CompressedCounter)
      ensures this.events == events && this.counter == counter && consumed == 0
    {
      this.events, this.counter, consumed := events, counter, 0;
    }

    method Read(wanted: nat) returns (r: ReadResult)
      requires wanted > 0
      modifies this, counter
      ensures counter.total >= old(counter.total)
      ensures r.Got? ==> |r.bytes| <= wanted && consumed == old(consumed) + |r.bytes|
      ensures r.Failed? ==> consumed == old(consumed)
      ensures r == Got([]) ==> Stream(old(events)) == [] && EndingOf(old(events)) == AtEnd
      ensures (r.Got? && r.bytes != []) || r == Failed(Interrupted) ==>
                && Stream(old(events)) == (if r.Got? then r.bytes else []) + Stream(events)
                && EndingOf(events) == EndingOf(old(events))
                && Weight(events) < Weight(old(events))
      ensures r.Failed? && r.error != Interrupted ==>
                Stream(old(events)) == [] && EndingOf(old(events)) == Broken(r.error)
    {
      if events == [] {
        return Got([]);
      }
      counter.total := counter.total + events[0].drawn;
      match events[0] {
        case Chunk(bytes, _) =>
          if |bytes| <= wanted {
            r := Got(bytes);
            events := events[1..];
          } else {
            r := Got(bytes[..wanted]);
            ghost var later := events[1..];
            events := [Chunk(bytes[wanted..], 0)] + events[1..];
            assert events[1..] == later;
            assert bytes == bytes[..wanted] + bytes[wanted..];
            assert bytes[..wanted] + (bytes[wanted..] + Stream(later)) == bytes + Stream(later);
          }
          consumed := consumed + |r.bytes|;
        case Failure(error, _) =>
          r := Failed(error);
          events := events[1..];
          assert [] + Stream(events) == Stream(events);
      }
    }
  }

  /** A destination that accepts `room` more bytes and then fails. */
  class Sink {
    var written: ByteString
    var room: nat
    const flushes: bool

    constructor (room: nat, flushes: bool)
      ensures written == [] && this.room == room && this.flushes == flushes
    {
      written, this.room, this.flushes := [], room, flushes;
    }

    /** `write_all`: on failure some prefix may already be written. */
    method WriteAll(bytes: ByteString) returns (ok: bool)
      modifies this
      ensures ok <==> |bytes| <= old(room)
      ensures written == old(written) + bytes[..Min(|bytes|, old(room))]
      ensures room == old(room) - Min(|bytes|, old(room))
    {
      var accepted := Min(|bytes|, room);
      ok := accepted == |bytes|;
      written := written + bytes[..accepted];
      room := room - accepted;
    }
  }
}
