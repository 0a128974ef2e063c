/**
The loop both capture readers share: read the block at the front of the remaining data, keep
the frames it holds, go on behind it. What a block is and what it means is a parameter.
*/
module BlockWalk {
  import opened Bytes
  import opened Capture
  import opened Wrappers

  /** Leave the loop, raise, or go on `length` bytes further in a new state. */
  datatype Step<S> = Stop | Broken(error: CaptureError) | Next(state: S, frames: seq<Frame>, length: nat)

  type Reader<!S> = (S, Bytes) -> Step<S>

  /** A block takes at least one byte and ends within the data. */
  ghost predicate Progresses<S(!new)>(read: Reader<S>) {
    forall s, d: Bytes :: read(s, d).Next? ==> 0 < read(s, d).length <= |d|
  }

  /** Whatever follows a complete block does not change how it reads. */
  ghost predicate IgnoresWhatFollows<S(!new)>(read: Reader<S>) {
    forall s, d: Bytes, rest: Bytes :: !read(s, d).Stop? ==> read(s, d + rest) == read(s, d)
  }

  /** One reading followed by another, unless one of them failed. */
  function Then<T>(a: Result<seq<T>, CaptureError>, b: Result<seq<T>, CaptureError>): Result<seq<T>, CaptureError> {
    match a
    case Failure(_) => a
    case Success(x) => match b
      case Failure(_) => b
      case Success(y) => Success(x + y)
  }

  lemma ThenInOrder<T>(x: seq<T>, a: Result<seq<T>, CaptureError>, b: Result<seq<T>, CaptureError>)
    ensures Then(Success(x), Then(a, b)) == Then(Then(Success(x), a), b)
    ensures Then(Success([]), b) == b && Then(Success(x), Success([])) == Success(x)
  {
    assert x + [] == x;
    assert b.Success? ==> [] + b.value == b.value;
    if a.Success? && b.Success? { Associative(x, a.value, b.value); }
  }

  /** Every packet read from the data on. Termination is the progress each block makes. */
  ghost function Read<S(!new)>(read: Reader<S>, s: S, data: Bytes): Result<seq<Packet>, CaptureError>
    requires Progresses(read)
    decreases |data|
  {
    match read(s, data)
    case Stop => Success([])
    case Broken(error) => Failure(error)
    case Next(after, frames, length) => Then(Success(Packets(frames)), Read(read, after, data[length..]))
  }

  /** A reader in its loop: the packets so far followed by what the remaining data holds. */
  ghost predicate Reading<S(!new)>(read: Reader<S>, s: S, rest: Bytes, out: seq<Packet>, all: Result<seq<Packet>, CaptureError>)
    requires Progresses(read)
  {
    Then(Success(out), Read(read, s, rest)) == all
  }

  lemma ReadStart<S(!new)>(read: Reader<S>, s: S, data: Bytes)
    requires Progresses(read)
    ensures Reading(read, s, data, [], Read(read, s, data))
  {
    ThenInOrder([], Success([]), Read(read, s, data));
  }

  lemma ReadNext<S(!new)>(read: Reader<S>, s: S, rest: Bytes, out: seq<Packet>, w: Step<S>,
                          all: Result<seq<Packet>, CaptureError>)
    requires Progresses(read) && read(s, rest) == w && w.Next? && Reading(read, s, rest, out, all)
    ensures 0 < w.length <= |rest| && Reading(read, w.state, rest[w.length..], out + Packets(w.frames), all)
  {
    ThenInOrder(out, Success(Packets(w.frames)), Read(read, w.state, rest[w.length..]));
  }

  /** Where the loop ends, the packets so far are the result, unless it raises. */
  lemma ReadEnd<S(!new)>(read: Reader<S>, s: S, rest: Bytes, out: seq<Packet>, w: Step<S>,
                         all: Result<seq<Packet>, CaptureError>)
    requires Progresses(read) && read(s, rest) == w && !w.Next? && Reading(read, s, rest, out, all)
    ensures all == if w.Broken? then Failure(w.error) else Success(out)
  {
    ThenInOrder(out, Success([]), Success([]));
  }

  // ----- Concatenation

  /** The data is a whole number of blocks, at least up to one that cannot be read. */
  ghost predicate WholeBlocks<S(!new)>(read: Reader<S>, s: S, data: Bytes)
    requires Progresses(read)
    decreases |data|
  {
    data == [] || match read(s, data)
      case Stop => false
      case Broken(_) => true
      case Next(after, _, length) => WholeBlocks(read, after, data[length..])
  }

  /** Data that reads the same in whatever state it is reached. */
  ghost predicate ResetsState<S(!new)>(read: Reader<S>, data: Bytes) {
    forall s, t :: read(s, data) == read(t, data)
  }

  /** Whole blocks followed by data that resets the state read as the two parts read apart. */
  lemma {:induction false} ReadInParts<S(!new)>(read: Reader<S>, s: S, t: S, s1: Bytes, s2: Bytes)
    requires Progresses(read) && IgnoresWhatFollows(read)
    requires forall u :: read(u, []).Stop?
    requires WholeBlocks(read, s, s1) && ResetsState(read, s2)
    ensures Read(read, s, s1 + s2) == Then(Read(read, s, s1), Read(read, t, s2))
    decreases |s1|
  {
    if s1 == [] {
      assert s1 + s2 == s2 && read(s, s2) == read(t, s2);
      ThenInOrder([], Success([]), Read(read, t, s2));
    } else {
      assert read(s, s1 + s2) == read(s, s1);
      var w := read(s, s1);
      if w.Next? {
        assert (s1 + s2)[w.length..] == s1[w.length..] + s2;
        ReadInParts(read, w.state, t, s1[w.length..], s2);
        ThenInOrder(Packets(w.frames), Read(read, w.state, s1[w.length..]), Read(read, t, s2));
      }
    }
  }

  // ----- Truncation

  /** Cut data reads to a prefix of what all of it reads to, and fails only if all of it does. */
  lemma {:induction false} ReadOfTruncation<S(!new)>(read: Reader<S>, s: S, data: Bytes, k: nat)
    requires Progresses(read) && IgnoresWhatFollows(read)
    requires k <= |data| && Read(read, s, data).Success?
    ensures Read(read, s, data[..k]).Success?
    ensures Read(read, s, data[..k]).value <= Read(read, s, data).value
    decreases |data|
  {
    var cut := read(s, data[..k]);
    if !cut.Stop? {
      assert data[..k] + data[k..] == data;
      assert read(s, data) == cut;
      assert data[cut.length..][..k - cut.length] == data[..k][cut.length..];
      ReadOfTruncation(read, cut.state, data[cut.length..], k - cut.length);
    }
  }
}
