/** Copying one ZIP member from a reader, whatever the reader does: never more than the allowance, then one probe. */
module ZipStream {
  import opened Basics

  newtype int64 = x: int | -0x8000_0000_0000_0000 <= x < 0x8000_0000_0000_0000

  // ----- Readers -----

  /** What a read says beside its bytes: there may be more, the data is over, or reading failed. */
  datatype Signal = More | Eof | Broken

  /** One thing a reader has to say. It may be empty, and it may carry its last bytes and the end at once. */
  datatype Answer = Answer(bytes: seq<byte>, signal: Signal)

  /** A read into `room` bytes: a longer answer is cut and keeps its signal for later; after the answers, the end. */
  function Served(answers: seq<Answer>, room: nat): (seq<byte>, Signal, seq<Answer>) {
    if answers == [] then ([], Eof, [])
    else
      var head := answers[0];
      if |head.bytes| <= room then (head.bytes, head.signal, answers[1..])
      else (head.bytes[..room], More, [Answer(head.bytes[room..], head.signal)] + answers[1..])
  }

  /** The bytes of the member: all up to its first end or failure. */
  function Data(answers: seq<Answer>): seq<byte> {
    if answers == [] then []
    else if answers[0].signal == More then answers[0].bytes + Data(answers[1..])
    else answers[0].bytes
  }

  function End(answers: seq<Answer>): Signal {
    if answers == [] then Eof
    else if answers[0].signal == More then End(answers[1..])
    else answers[0].signal
  }

  function AfterEnd(answers: seq<Answer>): seq<Answer> {
    if answers == [] then []
    else if answers[0].signal == More then AfterEnd(answers[1..])
    else answers[1..]
  }

  /** A probing read of one byte finds nothing and no failure. */
  predicate Quiet(answers: seq<Answer>) {
    answers == [] || (answers[0].bytes == [] && answers[0].signal != Broken)
  }

  /** An empty answer that ends nothing comes exactly when `room` bytes were read. */
  predicate StallsAt(answers: seq<Answer>, room: nat) {
    && answers != [] && answers[0].signal == More
    && if room == 0 then answers[0].bytes == []
       else |answers[0].bytes| <= room && StallsAt(answers[1..], room - |answers[0].bytes|)
  }

  // ----- What a bounded copy does -----

  /** Why a copy stopped: its allowance was used up, the data ended, or reading failed. */
  datatype Stop = Full | Ended | Failed

  datatype Copy = Copy(bytes: seq<byte>, stop: Stop, rest: seq<Answer>) {
    function After(earlier: seq<byte>): Copy {
      this.(bytes := earlier + bytes)
    }
  }

  /** Copying with an allowance of `room` bytes, one whole answer at a time. */
  function Copied(answers: seq<Answer>, room: nat): Copy {
    if room == 0 then Copy([], Full, answers)
    else if answers == [] then Copy([], Ended, [])
    else
      var head := answers[0];
      if |head.bytes| > room then
        Copy(head.bytes[..room], Full, [Answer(head.bytes[room..], head.signal)] + answers[1..])
      else
        match head.signal
        case More => Copied(answers[1..], room - |head.bytes|).After(head.bytes)
        case Eof => Copy(head.bytes, Ended, answers[1..])
        case Broken => Copy(head.bytes, Failed, answers[1..])
  }

  /** Reading through a buffer of any size, in any pieces, copies the same. */
  lemma ReadStep(answers: seq<Answer>, room: nat, buffer: nat)
    requires 0 < buffer <= room
    ensures var (chunk, signal, rest) := Served(answers, buffer);
      && |chunk| <= buffer
      && Copied(answers, room) ==
        match signal
        case More => Copied(rest, room - |chunk|).After(chunk)
        case Eof => Copy(chunk, Ended, rest)
        case Broken => Copy(chunk, Failed, rest)
  {
    if answers != [] && |answers[0].bytes| > buffer {
      hide Copied;
      CutStep(answers[0], answers[1..], room, buffer);
      assert answers == [answers[0]] + answers[1..];
      assert |answers[0].bytes[..buffer]| == buffer;
    }
  }

  lemma CutStep(head: Answer, tail: seq<Answer>, room: nat, buffer: nat)
    requires 0 < buffer <= room && buffer < |head.bytes|
    ensures var rest := [Answer(head.bytes[buffer..], head.signal)] + tail;
      Copied([head] + tail, room) == Copied(rest, room - buffer).After(head.bytes[..buffer])
  {
    hide Copied;
    var cut := Answer(head.bytes[buffer..], head.signal);
    FirstStep(head, tail, room);
    FirstStep(cut, tail, room - buffer);
    if |head.bytes| > room {
      CutTwice(head.bytes, buffer, room);
    } else if head.signal == More {
      JoinAgain(head.bytes, buffer, Copied(tail, room - |head.bytes|).bytes);
    } else {
      JoinAgain(head.bytes, buffer, []);
    }
  }

  lemma CutTwice(bytes: seq<byte>, buffer: nat, room: nat)
    requires buffer <= room <= |bytes|
    ensures bytes[buffer..][room - buffer..] == bytes[room..]
    ensures bytes[..buffer] + bytes[buffer..][..room - buffer] == bytes[..room]
  {
  }

  lemma JoinAgain(bytes: seq<byte>, buffer: nat, later: seq<byte>)
    requires buffer <= |bytes|
    ensures bytes[..buffer] + (bytes[buffer..] + later) == bytes + later
    ensures bytes[..buffer] + bytes[buffer..] == bytes
  {
  }

  lemma FirstStep(head: Answer, tail: seq<Answer>, room: nat)
    requires head.bytes != []
    ensures Copied([head] + tail, room) ==
      if |head.bytes| > room then Copy(head.bytes[..room], Full, [Answer(head.bytes[room..], head.signal)] + tail)
      else
        match head.signal
        case More => Copied(tail, room - |head.bytes|).After(head.bytes)
        case Eof => Copy(head.bytes, Ended, tail)
        case Broken => Copy(head.bytes, Failed, tail)
  {
    assert ([head] + tail)[1..] == tail;
    if room == 0 {
      assert head.bytes[0..] == head.bytes && head.bytes[..0] == [];
    }
  }

  /** A copy holds the first bytes of the member, as many as are allowed, and says rightly why it stopped. */
  lemma {:induction false} CopiedIsPrefix(answers: seq<Answer>, room: nat)
    ensures var copy := Copied(answers, room);
      && |copy.bytes| <= room && copy.bytes <= Data(answers)
      && (copy.stop == Full ==> |copy.bytes| == room)
      && (copy.stop != Full ==> copy.bytes == Data(answers) && copy.rest == AfterEnd(answers))
      && (copy.stop == Ended ==> End(answers) == Eof)
      && (copy.stop == Failed ==> End(answers) == Broken)
    decreases |answers|
  {
    if room > 0 && answers != [] && |answers[0].bytes| <= room && answers[0].signal == More {
      CopiedIsPrefix(answers[1..], room - |answers[0].bytes|);
    }
  }

  // ----- When a copy with its probe succeeds -----

  predicate Succeeds(answers: seq<Answer>, room: nat) {
    var copy := Copied(answers, room);
    copy.stop != Failed && Quiet(copy.rest)
  }

  /**
   * It succeeds exactly when the member ends properly within the allowance, or stalls just when the allowance is used
   * up. After an end that the copy itself has seen, the probe must find nothing either.
   */
  lemma {:induction false} SucceedsExactly(answers: seq<Answer>, room: nat)
    ensures Succeeds(answers, room) <==>
      || StallsAt(answers, room)
      || (End(answers) == Eof && |Data(answers)| <= room
          && (Copied(answers, room).stop == Full || Quiet(AfterEnd(answers))))
    decreases |answers|
  {
    if room > 0 && answers != [] && |answers[0].bytes| <= room && answers[0].signal == More {
      SucceedsExactly(answers[1..], room - |answers[0].bytes|);
    }
  }

  /** A success is a complete copy exactly when it is no stall before the end of the data. */
  lemma CompleteExactly(answers: seq<Answer>, room: nat)
    requires Succeeds(answers, room)
    ensures Copied(answers, room).bytes == Data(answers) <==> !(StallsAt(answers, room) && room < |Data(answers)|)
  {
    CopiedIsPrefix(answers, room);
    SucceedsExactly(answers, room);
  }

  /** Under this reader, success means a complete copy whatever the allowance. */
  ghost predicate Trustworthy(answers: seq<Answer>) {
    forall room: nat :: Succeeds(answers, room) ==> Copied(answers, room).bytes == Data(answers)
  }

  ghost predicate StallsOnlyAtTheEnd(answers: seq<Answer>) {
    forall room: nat :: StallsAt(answers, room) ==> room >= |Data(answers)|
  }

  /** Readers can be trusted exactly when they never stall before their last byte. */
  lemma TrustedExactly(answers: seq<Answer>)
    ensures Trustworthy(answers) <==> StallsOnlyAtTheEnd(answers)
  {
    if Trustworthy(answers) {
      forall room: nat | StallsAt(answers, room) ensures room >= |Data(answers)| {
        SucceedsExactly(answers, room);
        CompleteExactly(answers, room);
      }
    }
    if StallsOnlyAtTheEnd(answers) {
      forall room: nat | Succeeds(answers, room) ensures Copied(answers, room).bytes == Data(answers) {
        CompleteExactly(answers, room);
      }
    }
  }

  /** Answers that say something, or end. */
  predicate NeverIdle(answers: seq<Answer>) {
    forall i :: 0 <= i < |answers| ==> answers[i].bytes != [] || answers[i].signal != More
  }

  lemma {:induction false} NeverIdleNeverStalls(answers: seq<Answer>, room: nat)
    requires NeverIdle(answers)
    ensures !StallsAt(answers, room)
    decreases |answers|
  {
    if answers != [] && room > 0 && |answers[0].bytes| <= room {
      NeverIdleNeverStalls(answers[1..], room - |answers[0].bytes|);
    }
  }

  /** Readers that never answer empty without an end can be trusted. */
  lemma NeverIdleIsTrusted(answers: seq<Answer>)
    requires NeverIdle(answers)
    ensures StallsOnlyAtTheEnd(answers) && Trustworthy(answers)
  {
    forall room: nat ensures !StallsAt(answers, room) {
      NeverIdleNeverStalls(answers, room);
    }
    TrustedExactly(answers);
  }

  /** A reader that stalls where the allowance ends passes for a complete one. */
  lemma StalledReaderPasses()
    ensures var answers := [Answer([1], More), Answer([], More), Answer([2], Eof)];
      Succeeds(answers, 1) && Copied(answers, 1).bytes == [1] && Data(answers) == [1, 2]
  {
    var last := [Answer([2], Eof)];
    var later := [Answer([], More)] + last;
    var answers := [Answer([1], More)] + later;
    assert answers[1..] == later && later[1..] == last && answers == [Answer([1], More), Answer([], More), Answer([2], Eof)];
    assert Data(last) == [2] && Data(later) == [2];
    assert Copied(later, 0) == Copy([], Full, later);
  }

  // ----- The loop -----

  class Source {
    var answers: seq<Answer>

    constructor (answers: seq<Answer>)
      ensures this.answers == answers
    {
      this.answers := answers;
    }

    method Read(room: int64) returns (chunk: seq<byte>, signal: Signal)
      requires room >= 0
      modifies this
      ensures (chunk, signal, answers) == Served(old(answers), room as int)
    {
      if answers == [] {
        return [], Eof;
      }
      var head := answers[0];
      if |head.bytes| <= room as int {
        answers := answers[1..];
        return head.bytes, head.signal;
      }
      answers := [Answer(head.bytes[room as int..], head.signal)] + answers[1..];
      return head.bytes[..room as int], More;
    }
  }

  /** A new file that takes `space` bytes and must never hold more than `limit`. */
  class Destination {
    ghost const limit: nat
    const space: nat
    var contents: seq<byte>

    ghost predicate Valid()
      reads this
    {
      |contents| <= limit && |contents| <= space
    }

    constructor (ghost limit: nat, space: nat)
      ensures Valid() && this.limit == limit && this.space == space && contents == []
    {
      this.limit, this.space := limit, space;
      contents := [];
    }

    /** Every write must fit the limit, so the limit holds in every state of a copy. */
    method Write(chunk: seq<byte>) returns (n: nat)
      requires Valid() && |contents| + |chunk| <= limit
      modifies this
      ensures Valid() && n == Min(|chunk|, space - |old(contents)|) && contents == old(contents) + chunk[..n]
    {
      n := Min(|chunk|, space - |contents|);
      contents := contents + chunk[..n];
    }
  }

  /** How much a list of answers still has to say. */
  function Unread(answers: seq<Answer>): nat {
    if answers == [] then 0 else 1 + |answers[0].bytes| + Unread(answers[1..])
  }

  lemma ServedShrinks(answers: seq<Answer>, room: nat)
    requires room > 0
    ensures answers != [] ==> Unread(Served(answers, room).2) < Unread(answers)
    ensures answers == [] ==> Served(answers, room).1 == Eof
  {
    if answers != [] && |answers[0].bytes| > room {
      var rest := [Answer(answers[0].bytes[room..], answers[0].signal)] + answers[1..];
      assert rest[1..] == answers[1..];
    }
  }

  /** `copy` is what is copied already and what the reader still gives within `left`. */
  ghost predicate Progress(copy: Copy, answers: seq<Answer>, left: nat, contents: seq<byte>) {
    copy == Copied(answers, left).After(contents)
  }

  /** One read moves the copy on, or ends it. */
  lemma ReadOnce(copy: Copy, answers: seq<Answer>, left: nat, contents: seq<byte>, room: nat)
    requires Progress(copy, answers, left, contents) && 0 < room <= left
    ensures var (chunk, signal, rest) := Served(answers, room);
      && |chunk| <= room && contents + chunk <= copy.bytes
      && match signal
         case More => Progress(copy, rest, left - |chunk|, contents + chunk) && Unread(rest) < Unread(answers)
         case Eof => copy == Copy(contents + chunk, Ended, rest)
         case Broken => copy == Copy(contents + chunk, Failed, rest)
  {
    hide Copied, Served, Unread;
    ReadStep(answers, left, room);
    ServedShrinks(answers, room);
    var (chunk, signal, rest) := Served(answers, room);
    var later := Copied(rest, left - |chunk|).bytes;
    assert contents + (chunk + later) == contents + chunk + later;
  }

  lemma CopyStarts(answers: seq<Answer>, limit: nat)
    ensures Progress(Copied(answers, limit), answers, limit, []) && |Copied(answers, limit).bytes| <= limit
  {
    CopiedIsPrefix(answers, limit);
    assert [] + Copied(answers, limit).bytes == Copied(answers, limit).bytes;
  }

  lemma UsedUp(copy: Copy, answers: seq<Answer>, contents: seq<byte>)
    requires Progress(copy, answers, 0, contents)
    ensures copy == Copy(contents, Full, answers)
  {
    assert contents + [] == contents;
  }

  lemma ShortWrite(all: seq<byte>, before: seq<byte>, chunk: seq<byte>, written: nat)
    requires before + chunk <= all && written <= |chunk|
    ensures before + chunk[..written] == all[..|before| + written]
    ensures written == |chunk| ==> chunk[..written] == chunk
  {
  }

  /** The limited copy through a buffer: no read is given more room than the allowance that is left. */
  method LimitedCopy(source: Source, destination: Destination, limit: int64, buffer: int64)
    returns (n: int64, failed: bool)
    requires limit >= 0 && buffer > 0 && destination.Valid()
    requires destination.limit == limit as int && destination.contents == []
    modifies source, destination
    ensures destination.Valid() && n as int == |destination.contents|
    ensures var copy := Copied(old(source.answers), limit as int);
      if |copy.bytes| > destination.space then failed && destination.contents == copy.bytes[..destination.space]
      else
        && destination.contents == copy.bytes && (failed <==> copy.stop == Failed)
        && source.answers == copy.rest
  {
    hide Copied, Served, Unread, Progress;
    ghost var copy := Copied(source.answers, limit as int);
    CopyStarts(source.answers, limit as int);
    n := 0;
    while n < limit
      invariant destination.Valid() && n as int == |destination.contents| <= limit as int
      invariant Progress(copy, source.answers, (limit - n) as int, destination.contents)
      decreases Unread(source.answers)
    {
      var room := if buffer < limit - n then buffer else limit - n;
      ReadOnce(copy, source.answers, (limit - n) as int, destination.contents, room as int);
      ghost var before := destination.contents;
      var chunk, signal := source.Read(room);
      var written := destination.Write(chunk);
      ShortWrite(copy.bytes, before, chunk, written);
      n := n + written as int64;
      if written < |chunk| || signal == Broken {
        return n, true;
      }
      if signal == Eof {
        return n, false;
      }
    }
    UsedUp(copy, source.answers, destination.contents);
    return n, false;
  }
}
