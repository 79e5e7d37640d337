/** The node's sequence notifications: parsing one message, and checking that a stream of them is whole. */
module Zmq {
  import opened Types
  import opened Bytes
  import opened SyncQueues

  /** A sequence message with the number the publisher gave it. */
  datatype StreamMessage = StreamMessage(msg: SequenceMessage, zmqSeq: nat)

  function MempoolSeq(m: StreamMessage): Option<nat> {
    match m.msg
    case Connected(_) => None
    case Disconnected(_) => None
    case Added(_, seqNo) => Some(seqNo)
    case Removed(_, seqNo) => Some(seqNo)
  }

  // ---------------------------------------------------------------- parsing

  datatype ParseError =
    | MissingHash
    | MissingMempoolSequence
    | MissingMessageType
    | MissingPrefix
    | MissingZmqSequence
    | UnknownMessageType(tag: byte)

  datatype ParseResult = Parsed(message: StreamMessage) | Rejected(error: ParseError)

  const HASH_LEN: nat := 32
  // The bytes of the word "sequence", and the letters of the four message types.
  const PREFIX: seq<byte> := [0x73, 0x65, 0x71, 0x75, 0x65, 0x6e, 0x63, 0x65]
  const TAG_CONNECTED: byte := 0x43
  const TAG_DISCONNECTED: byte := 0x44
  const TAG_ADDED: byte := 0x41
  const TAG_REMOVED: byte := 0x52

  function Reversed(s: seq<byte>): (r: seq<byte>)
    ensures |r| == |s|
  {
    if s == [] then [] else Reversed(s[1..]) + [s[0]]
  }

  lemma {:induction false} ReversedAppend(s: seq<byte>, x: byte)
    ensures Reversed(s + [x]) == [x] + Reversed(s)
  {
    if s == [] {
      assert s + [x] == [x];
    } else {
      assert (s + [x])[1..] == s[1..] + [x];
      ReversedAppend(s[1..], x);
    }
  }

  lemma {:induction false} ReversedTwice(s: seq<byte>)
    ensures Reversed(Reversed(s)) == s
  {
    if s != [] {
      ReversedAppend(Reversed(s[1..]), s[0]);
      ReversedTwice(s[1..]);
    }
  }

  function ParseSequenceMessage(frames: seq<seq<byte>>): ParseResult {
    if |frames| == 0 || frames[0] != PREFIX then Rejected(MissingPrefix)
    else if |frames| < 2 || |frames[1]| < HASH_LEN then Rejected(MissingHash)
    else
      var hash := FromLe(Reversed(frames[1][..HASH_LEN]));
      var rest := frames[1][HASH_LEN..];
      if |rest| < 1 then Rejected(MissingMessageType)
      else if |frames| < 3 || |frames[2]| < 4 then Rejected(MissingZmqSequence)
      else
        var zmqSeq := FromLe(frames[2][..4]);
        var tag, tail := rest[0], rest[1..];
        if tag == TAG_CONNECTED then Parsed(StreamMessage(Connected(hash), zmqSeq))
        else if tag == TAG_DISCONNECTED then Parsed(StreamMessage(Disconnected(hash), zmqSeq))
        else if tag == TAG_ADDED then
          if |tail| < 8 then Rejected(MissingMempoolSequence)
          else Parsed(StreamMessage(Added(hash, FromLe(tail[..8])), zmqSeq))
        else if tag == TAG_REMOVED then
          if |tail| < 8 then Rejected(MissingMempoolSequence)
          else Parsed(StreamMessage(Removed(hash, FromLe(tail[..8])), zmqSeq))
        else Rejected(UnknownMessageType(tag))
  }

  /** The prefix spells the topic, and the byte after the hash is the letter of what happened. */
  lemma LettersAreTold(frames: seq<seq<byte>>)
    requires ParseSequenceMessage(frames).Parsed?
    ensures
      var m, letter := ParseSequenceMessage(frames).message.msg, frames[1][32];
      && frames[0] == seq(8, i requires 0 <= i < 8 => "sequence"[i] as int)
      && (m.Connected? <==> letter == 'C' as int) && (m.Disconnected? <==> letter == 'D' as int)
      && (m.Added? <==> letter == 'A' as int) && (m.Removed? <==> letter == 'R' as int)
  {
    hide FromLe, Reversed;
    assert frames[1][HASH_LEN..][0] == frames[1][32];
  }

  function HashOf(m: SequenceMessage): nat {
    match m
    case Connected(hash) => hash
    case Disconnected(hash) => hash
    case Added(txid, _) => txid
    case Removed(txid, _) => txid
  }

  /** What follows the hash in the middle frame. */
  function TypeAndNumber(m: SequenceMessage): seq<byte> {
    match m
    case Connected(_) => [TAG_CONNECTED]
    case Disconnected(_) => [TAG_DISCONNECTED]
    case Added(_, seqNo) => [TAG_ADDED] + ToLe(seqNo, 8)
    case Removed(_, seqNo) => [TAG_REMOVED] + ToLe(seqNo, 8)
  }

  ghost predicate InRange(m: StreamMessage) {
    && HashOf(m.msg) < Pow256(HASH_LEN) && m.zmqSeq < Pow256(4)
    && (MempoolSeq(m).Some? ==> MempoolSeq(m).value < Pow256(8))
  }

  /** The frames carry the message: prefix, then hash in reverse with type and number, then the publisher's number;
      anything after these is ignored. */
  ghost predicate Carries(frames: seq<seq<byte>>, m: StreamMessage) {
    && InRange(m) && |frames| >= 3 && frames[0] == PREFIX
    && Reversed(ToLe(HashOf(m.msg), HASH_LEN)) + TypeAndNumber(m.msg) <= frames[1]
    && ToLe(m.zmqSeq, 4) <= frames[2]
  }

  lemma HashRoundTrip(hash: nat)
    requires hash < Pow256(HASH_LEN)
    ensures FromLe(Reversed(Reversed(ToLe(hash, HASH_LEN)))) == hash
  {
    ReversedTwice(ToLe(hash, HASH_LEN));
    LeRoundTrip(hash, HASH_LEN);
  }

  lemma HashBack(bytes: seq<byte>)
    requires |bytes| == HASH_LEN
    ensures Reversed(ToLe(FromLe(Reversed(bytes)), HASH_LEN)) == bytes
    ensures FromLe(Reversed(bytes)) < Pow256(HASH_LEN)
  {
    LeUnique(Reversed(bytes));
    ReversedTwice(bytes);
    FromLeBound(Reversed(bytes));
  }

  /** Parsing succeeds on exactly the frames that carry a message, and yields that message. */
  lemma ParsedIffCarried(frames: seq<seq<byte>>, m: StreamMessage)
    ensures ParseSequenceMessage(frames) == Parsed(m) <==> Carries(frames, m)
  {
    if Carries(frames, m) {
      CarriedParses(frames, m);
    }
    if ParseSequenceMessage(frames) == Parsed(m) {
      ParsedCarries(frames, m);
    }
  }

  lemma CarriedParses(frames: seq<seq<byte>>, m: StreamMessage)
    requires Carries(frames, m)
    ensures ParseSequenceMessage(frames) == Parsed(m)
  {
    hide ToLe, FromLe, Reversed;
    var head := Reversed(ToLe(HashOf(m.msg), HASH_LEN));
    var rest := TypeAndNumber(m.msg);
    HashRoundTrip(HashOf(m.msg));
    LeRoundTrip(m.zmqSeq, 4);
    LengthOfLe(HashOf(m.msg), HASH_LEN);
    LengthOfLe(m.zmqSeq, 4);
    assert frames[1][..HASH_LEN] == head;
    assert frames[1][HASH_LEN..HASH_LEN + |rest|] == rest;
    assert frames[1][HASH_LEN] == rest[0];
    assert frames[2][..4] == ToLe(m.zmqSeq, 4);
    if MempoolSeq(m).Some? {
      LeRoundTrip(MempoolSeq(m).value, 8);
      LengthOfLe(MempoolSeq(m).value, 8);
      assert frames[1][HASH_LEN..][1..][..8] == ToLe(MempoolSeq(m).value, 8);
    }
  }

  lemma LengthOfLe(n: nat, k: nat)
    ensures |ToLe(n, k)| == k && |Reversed(ToLe(n, k))| == k
  {
  }

  lemma ParsedCarries(frames: seq<seq<byte>>, m: StreamMessage)
    requires ParseSequenceMessage(frames) == Parsed(m)
    ensures Carries(frames, m)
  {
    hide ToLe, FromLe, Reversed, Pow256;
    HashBack(frames[1][..HASH_LEN]);
    LeUnique(frames[2][..4]);
    FromLeBound(frames[2][..4]);
    var rest := frames[1][HASH_LEN..];
    if MempoolSeq(m).Some? {
      LeUnique(rest[1..][..8]);
      FromLeBound(rest[1..][..8]);
      assert rest[..9] == [rest[0]] + rest[1..][..8];
      assert frames[1][..HASH_LEN + 9] == frames[1][..HASH_LEN] + rest[..9];
    } else {
      assert frames[1][..HASH_LEN + 1] == frames[1][..HASH_LEN] + [rest[0]];
    }
  }

  // ---------------------------------------------------------------- checking a stream

  /** After a block event the next mempool number is only bounded from below. */
  datatype NextMempoolSeq = AtLeast(value: nat) | Equal(value: nat)

  datatype Checked =
    | Pass
    | Duplicate
    | ExpectedAtLeast(minNextSeq: nat, seqNo: nat)
    | MissingMempoolSeq(expected: nat)
    | MissingZmqSeq(expected: nat)

  predicate Failed(c: Checked) {
    c.ExpectedAtLeast? || c.MissingMempoolSeq? || c.MissingZmqSeq?
  }

  datatype Expectation = Expectation(mempool: Option<NextMempoolSeq>, zmq: Option<nat>)

  /** How the mempool number of a message is judged, and what is expected next. */
  function JudgeMempool(e: Option<NextMempoolSeq>, m: StreamMessage): (Option<NextMempoolSeq>, Checked) {
    match (e, MempoolSeq(m))
    case (None, Some(n)) => (Some(Equal(n + 1)), Pass)
    case (Some(AtLeast(min)), Some(n)) => if n >= min then (Some(Equal(n + 1)), Pass) else (e, ExpectedAtLeast(min, n))
    case (Some(Equal(next)), Some(n)) =>
      if n + 1 == next then (e, Duplicate)
      else if n == next then (Some(Equal(n + 1)), Pass)
      else (e, MissingMempoolSeq(next))
    case (Some(Equal(next)), None) => (Some(AtLeast(next)), Pass)
    case (_, None) => (e, Pass)
  }

  function JudgeZmq(e: Option<nat>, m: StreamMessage): (Option<nat>, Checked) {
    match e
    case None => (Some(m.zmqSeq + 1), Pass)
    case Some(next) =>
      if m.zmqSeq + 1 == next then (e, Duplicate)
      else if m.zmqSeq == next then (Some(next + 1), Pass)
      else (e, MissingZmqSeq(next))
  }

  /** The mempool number is judged first; the publisher's number only if that passes. */
  function Judge(e: Expectation, m: StreamMessage): (Expectation, Checked) {
    var (mempool, c) := JudgeMempool(e.mempool, m);
    if c != Pass then (e.(mempool := mempool), c) else
    var (zmq, c') := JudgeZmq(e.zmq, m);
    (Expectation(mempool, zmq), c')
  }

  datatype Outcome = Outcome(passed: seq<StreamMessage>, failed: bool)

  /** What a stream lets through, and whether it ran into an error. */
  ghost function Filtered(e: Expectation, stream: seq<StreamMessage>): Outcome
    decreases |stream|
  {
    if stream == [] then Outcome([], false) else
    var (next, c) := Judge(e, stream[0]);
    if Failed(c) then Outcome([], true) else
    var rest := Filtered(next, stream[1..]);
    if c == Pass then Outcome([stream[0]] + rest.passed, rest.failed) else rest
  }

  const START: Expectation := Expectation(None, None)

  class SequenceChecker {
    var nextMempoolSeq: Option<NextMempoolSeq>
    var nextZmqSeq: Option<nat>

    constructor ()
      ensures Expected() == START
    {
      nextMempoolSeq, nextZmqSeq := None, None;
    }

    ghost function Expected(): Expectation
      reads this
    {
      Expectation(nextMempoolSeq, nextZmqSeq)
    }

    method CheckMempoolSeq(m: StreamMessage) returns (c: Checked)
      modifies this`nextMempoolSeq
      ensures (nextMempoolSeq, c) == JudgeMempool(old(nextMempoolSeq), m)
    {
      if MempoolSeq(m).Some? {
        var n := MempoolSeq(m).value;
        match nextMempoolSeq {
          case None =>
            nextMempoolSeq := Some(Equal(n + 1));
          case Some(AtLeast(min)) =>
            if n < min {
              return ExpectedAtLeast(min, n);
            }
            nextMempoolSeq := Some(Equal(n + 1));
          case Some(Equal(next)) =>
            if n + 1 == next {
              return Duplicate;
            }
            if n != next {
              return MissingMempoolSeq(next);
            }
            nextMempoolSeq := Some(Equal(n + 1));
        }
      } else if nextMempoolSeq.Some? && nextMempoolSeq.value.Equal? {
        nextMempoolSeq := Some(AtLeast(nextMempoolSeq.value.value));
      }
      return Pass;
    }

    method CheckZmqSeq(m: StreamMessage) returns (c: Checked)
      modifies this`nextZmqSeq
      ensures (nextZmqSeq, c) == JudgeZmq(old(nextZmqSeq), m)
    {
      if nextZmqSeq.None? {
        nextZmqSeq := Some(m.zmqSeq + 1);
        return Pass;
      }
      var next := nextZmqSeq.value;
      if m.zmqSeq + 1 == next {
        return Duplicate;
      }
      if m.zmqSeq != next {
        return MissingZmqSeq(next);
      }
      nextZmqSeq := Some(next + 1);
      return Pass;
    }

    method CheckSeqNumbers(m: StreamMessage) returns (c: Checked)
      modifies this
      ensures (Expected(), c) == Judge(old(Expected()), m)
    {
      c := CheckMempoolSeq(m);
      if c == Pass {
        c := CheckZmqSeq(m);
      }
    }

    /** The stream with every message checked, up to the first error. */
    method CheckStream(stream: seq<StreamMessage>) returns (passed: seq<StreamMessage>, failed: bool)
      modifies this
      ensures Outcome(passed, failed) == Filtered(old(Expected()), stream)
    {
      hide Judge;
      passed := [];
      assert stream[0..] == stream;
      for i := 0 to |stream|
        invariant Filtered(old(Expected()), stream).failed == Filtered(Expected(), stream[i..]).failed
        invariant Filtered(old(Expected()), stream).passed == passed + Filtered(Expected(), stream[i..]).passed
      {
        assert stream[i..][1..] == stream[i + 1..];
        var c := CheckSeqNumbers(stream[i]);
        if Failed(c) {
          assert passed + [] == passed;
          return passed, true;
        }
        if c == Pass {
          passed := passed + [stream[i]];
        }
      }
      assert passed + [] == passed;
      return passed, false;
    }
  }

  // ---------------------------------------------------------------- valid publisher streams

  /** The mempool number of the last tx message. */
  ghost function LastTxSeq(stream: seq<StreamMessage>): Option<nat> {
    if stream == [] then None else
    var last := stream[|stream| - 1];
    if MempoolSeq(last).Some? then MempoolSeq(last) else LastTxSeq(stream[..|stream| - 1])
  }

  /** What a publisher may send after `stream`: the next number of its own, and the next mempool number, unless a
      block came in between, which may have used up some. */
  ghost predicate MayFollow(stream: seq<StreamMessage>, m: StreamMessage) {
    && (stream != [] ==> m.zmqSeq == stream[|stream| - 1].zmqSeq + 1)
    && (MempoolSeq(m).Some? && LastTxSeq(stream).Some? ==>
          if MempoolSeq(stream[|stream| - 1]).Some? then MempoolSeq(m).value == LastTxSeq(stream).value + 1
          else MempoolSeq(m).value > LastTxSeq(stream).value)
  }

  ghost predicate Published(stream: seq<StreamMessage>) {
    stream != [] ==>
      Published(stream[..|stream| - 1]) && MayFollow(stream[..|stream| - 1], stream[|stream| - 1])
  }

  /** What is expected after a published stream. */
  ghost function ExpectedAfter(stream: seq<StreamMessage>): Expectation {
    if stream == [] then START else
    var last := stream[|stream| - 1];
    Expectation(if LastTxSeq(stream).None? then None
                else if MempoolSeq(last).Some? then Some(Equal(LastTxSeq(stream).value + 1))
                else Some(AtLeast(LastTxSeq(stream).value + 1)),
                Some(last.zmqSeq + 1))
  }

  lemma NextPasses(stream: seq<StreamMessage>, m: StreamMessage)
    requires MayFollow(stream, m)
    ensures Judge(ExpectedAfter(stream), m) == (ExpectedAfter(stream + [m]), Pass)
  {
    assert (stream + [m])[..|stream|] == stream;
  }

  lemma RepeatIsDropped(stream: seq<StreamMessage>)
    requires stream != []
    ensures Judge(ExpectedAfter(stream), stream[|stream| - 1]) == (ExpectedAfter(stream), Duplicate)
  {
  }

  /** The messages from `stream` on, each sent one or more times in a row. */
  ghost predicate Repeats(sent: seq<StreamMessage>, stream: seq<StreamMessage>, last: Option<StreamMessage>) {
    if sent == [] then stream == [] else
    || (last == Some(sent[0]) && Repeats(sent[1..], stream, last))
    || (stream != [] && sent[0] == stream[0] && Repeats(sent[1..], stream[1..], Some(stream[0])))
  }

  ghost function LastOf(stream: seq<StreamMessage>): Option<StreamMessage> {
    if stream == [] then None else Some(stream[|stream| - 1])
  }

  lemma {:induction false} PublishedPrefix(stream: seq<StreamMessage>, n: nat)
    requires Published(stream) && n <= |stream|
    ensures Published(stream[..n])
  {
    if n < |stream| {
      PublishedPrefix(stream[..|stream| - 1], n);
      assert stream[..|stream| - 1][..n] == stream[..n];
    } else {
      assert stream[..n] == stream;
    }
  }

  /** A published stream in which messages are repeated comes out with the repetitions gone, and without error. */
  lemma {:induction false} DeduplicatedFrom(before: seq<StreamMessage>, sent: seq<StreamMessage>,
                                            stream: seq<StreamMessage>)
    requires Published(before + stream) && Repeats(sent, stream, LastOf(before))
    ensures Filtered(ExpectedAfter(before), sent) == Outcome(stream, false)
    decreases |sent|
  {
    if sent != [] {
      if LastOf(before) == Some(sent[0]) && Repeats(sent[1..], stream, LastOf(before)) {
        RepeatIsDropped(before);
        DeduplicatedFrom(before, sent[1..], stream);
      } else {
        var m := stream[0];
        assert (before + [m]) + stream[1..] == before + stream;
        PublishedPrefix(before + stream, |before| + 1);
        assert (before + stream)[..|before| + 1] == before + [m];
        assert (before + [m])[..|before|] == before;
        NextPasses(before, m);
        DeduplicatedFrom(before + [m], sent[1..], stream[1..]);
        assert [m] + stream[1..] == stream;
      }
    }
  }

  lemma Deduplicated(sent: seq<StreamMessage>, stream: seq<StreamMessage>)
    requires Published(stream) && Repeats(sent, stream, None)
    ensures Filtered(START, sent) == Outcome(stream, false)
  {
    assert [] + stream == stream;
    DeduplicatedFrom([], sent, stream);
  }

  // ---------------------------------------------------------------- what acceptance means

  /** The publisher's numbers are consecutive, and the mempool numbers go up. */
  ghost predicate InOrder(stream: seq<StreamMessage>) {
    && (forall i :: 0 < i < |stream| ==> stream[i].zmqSeq == stream[i - 1].zmqSeq + 1)
    && (forall i, j :: 0 <= i < j < |stream| && MempoolSeq(stream[i]).Some? && MempoolSeq(stream[j]).Some? ==>
          MempoolSeq(stream[i]).value < MempoolSeq(stream[j]).value)
  }

  /** The expectation is ahead of every number that was let through. */
  ghost predicate Ahead(passed: seq<StreamMessage>, e: Expectation) {
    && InOrder(passed)
    && (passed != [] ==> e.zmq == Some(passed[|passed| - 1].zmqSeq + 1))
    && (forall i :: 0 <= i < |passed| && MempoolSeq(passed[i]).Some? ==>
          e.mempool.Some? && MempoolSeq(passed[i]).value < e.mempool.value.value)
  }

  lemma AheadStep(passed: seq<StreamMessage>, e: Expectation, m: StreamMessage)
    requires Ahead(passed, e) && !Failed(Judge(e, m).1)
    requires passed == [] ==> e.zmq == None
    ensures Judge(e, m).1 == Pass ==> Ahead(passed + [m], Judge(e, m).0)
    ensures Judge(e, m).1 == Duplicate ==> Ahead(passed, Judge(e, m).0)
    ensures passed == [] && Judge(e, m).1 == Duplicate ==> Judge(e, m).0.zmq == None
  {
    var more := passed + [m];
    assert forall i :: 0 <= i < |passed| ==> more[i] == passed[i];
    assert more[|passed|] == m;
  }

  lemma {:induction false} AcceptedFrom(passed: seq<StreamMessage>, e: Expectation, stream: seq<StreamMessage>)
    requires Ahead(passed, e) && (passed == [] ==> e.zmq == None) && !Filtered(e, stream).failed
    ensures InOrder(passed + Filtered(e, stream).passed)
    decreases |stream|
  {
    hide InOrder, Judge;
    if stream == [] {
      assert passed + [] == passed;
      AheadInOrder(passed, e);
    } else {
      var (next, c) := Judge(e, stream[0]);
      AheadStep(passed, e, stream[0]);
      if c == Pass {
        AcceptedFrom(passed + [stream[0]], next, stream[1..]);
        assert passed + ([stream[0]] + Filtered(next, stream[1..]).passed) ==
               (passed + [stream[0]]) + Filtered(next, stream[1..]).passed;
      } else {
        AcceptedFrom(passed, next, stream[1..]);
      }
    }
  }

  lemma AheadInOrder(passed: seq<StreamMessage>, e: Expectation)
    requires Ahead(passed, e)
    ensures InOrder(passed)
  {
  }

  /** Whatever was received: if no error was raised, what came out is in order. */
  lemma AcceptedInOrder(stream: seq<StreamMessage>)
    requires !Filtered(START, stream).failed
    ensures InOrder(Filtered(START, stream).passed)
  {
    AcceptedFrom([], START, stream);
    assert [] + Filtered(START, stream).passed == Filtered(START, stream).passed;
  }

  // ---------------------------------------------------------------- when acceptance hides a gap

  /** What is expected after all of a stream. */
  ghost function StateAfter(stream: seq<StreamMessage>): Expectation {
    if stream == [] then START else Judge(StateAfter(stream[..|stream| - 1]), stream[|stream| - 1]).0
  }

  /** The message at place `i` is let through. */
  ghost predicate PassedAt(stream: seq<StreamMessage>, i: nat)
    requires i < |stream|
  {
    Judge(StateAfter(stream[..i]), stream[i]).1 == Pass
  }

  ghost predicate NoneFailed(stream: seq<StreamMessage>) {
    forall i :: 0 <= i < |stream| ==> !Failed(Judge(StateAfter(stream[..i]), stream[i]).1)
  }

  /** What a stream lets through. */
  ghost function PassedOf(stream: seq<StreamMessage>): seq<StreamMessage> {
    if stream == [] then [] else
    PassedOf(stream[..|stream| - 1]) + if PassedAt(stream, |stream| - 1) then [stream[|stream| - 1]] else []
  }

  /** The place of the last message let through. */
  ghost function LastPassed(stream: seq<StreamMessage>): Option<nat> {
    if stream == [] then None
    else if PassedAt(stream, |stream| - 1) then Some(|stream| - 1)
    else LastPassed(stream[..|stream| - 1])
  }

  lemma AppendState(front: seq<StreamMessage>, m: StreamMessage)
    ensures StateAfter(front + [m]) == Judge(StateAfter(front), m).0
    ensures PassedAt(front + [m], |front|) <==> Judge(StateAfter(front), m).1 == Pass
    ensures PassedOf(front + [m]) == PassedOf(front) + if PassedAt(front + [m], |front|) then [m] else []
    ensures LastPassed(front + [m]) == if PassedAt(front + [m], |front|) then Some(|front|) else LastPassed(front)
  {
    hide Judge;
    assert (front + [m])[..|front|] == front;
  }

  lemma NoneFailedStep(front: seq<StreamMessage>, m: StreamMessage)
    ensures NoneFailed(front + [m]) <==> NoneFailed(front) && !Failed(Judge(StateAfter(front), m).1)
  {
    hide Judge, Failed, StateAfter;
    var stream := front + [m];
    assert stream[..|front|] == front && stream[|front|] == m;
    forall i | 0 <= i < |front| ensures stream[..i] == front[..i] && stream[i] == front[i] {
    }
  }

  lemma FilteredStep(e: Expectation, m: StreamMessage, rest: seq<StreamMessage>)
    ensures Filtered(e, [m] + rest) ==
              var (next, c) := Judge(e, m);
              if Failed(c) then Outcome([], true) else
              var more := Filtered(next, rest);
              if c == Pass then Outcome([m] + more.passed, more.failed) else more
  {
    hide Judge, Failed;
    assert ([m] + rest)[1..] == rest;
  }

  lemma {:induction false} FilteredFrom(before: seq<StreamMessage>, stream: seq<StreamMessage>)
    requires NoneFailed(before)
    ensures !Filtered(StateAfter(before), stream).failed <==> NoneFailed(before + stream)
    ensures NoneFailed(before + stream) ==>
              PassedOf(before + stream) == PassedOf(before) + Filtered(StateAfter(before), stream).passed
    decreases |stream|
  {
    hide *;
    if stream == [] {
      FilteredNone(before);
    } else {
      var m, rest, more := stream[0], stream[1..], before + [stream[0]];
      assert stream == [m] + rest && before + stream == more + rest;
      FilteredStep(StateAfter(before), m, rest);
      NoneFailedStep(before, m);
      AppendState(before, m);
      if NoneFailed(more) {
        FilteredFrom(more, rest);
        var out := Filtered(StateAfter(more), rest).passed;
        assert PassedOf(before) + ([m] + out) == (PassedOf(before) + [m]) + out;
        assert PassedOf(before) + [] == PassedOf(before);
        DroppedOtherwise(before, m);
      } else if NoneFailed(more + rest) {
        NoneFailedOfJoin(more, rest);
      }
    }
  }

  lemma NoneFailedOfJoin(front: seq<StreamMessage>, rest: seq<StreamMessage>)
    requires NoneFailed(front + rest)
    ensures NoneFailed(front)
  {
    hide NoneFailed;
    NoneFailedPrefix(front + rest, |front|);
    assert (front + rest)[..|front|] == front;
  }

  lemma FilteredNone(before: seq<StreamMessage>)
    ensures before + [] == before && Filtered(StateAfter(before), []) == Outcome([], false)
    ensures PassedOf(before) + [] == PassedOf(before)
  {
  }

  lemma DroppedOtherwise(front: seq<StreamMessage>, m: StreamMessage)
    ensures PassedAt(front + [m], |front|) <==> Judge(StateAfter(front), m).1 == Pass
  {
    AppendState(front, m);
  }

  /** Message `k` was dropped because it repeats the publisher's number of tx message `i`, although the check of
      mempool numbers, which comes first, had taken it for a new message. */
  ghost predicate Swallowed(stream: seq<StreamMessage>, i: nat, k: nat)
    requires i < |stream| && k < |stream|
  {
    && i < k && MempoolSeq(stream[i]).Some? && stream[k].zmqSeq == stream[i].zmqSeq
    && (MempoolSeq(stream[k]).Some? ==> MempoolSeq(stream[k]).value > MempoolSeq(stream[i]).value)
  }

  /** Tx messages `i` and `j` pass one after the other. In between, another tx message is swallowed, or a block message
      is and the mempool number of `j` skips. */
  ghost predicate HidesGapAt(stream: seq<StreamMessage>, i: nat, k: nat, j: nat)
    requires i < |stream| && k < |stream| && j < |stream|
  {
    && k < j && LastPassed(stream[..j]) == Some(i) && PassedAt(stream, j)
    && Swallowed(stream, i, k) && MempoolSeq(stream[j]).Some?
    && (MempoolSeq(stream[k]).Some? || MempoolSeq(stream[j]).value != MempoolSeq(stream[i]).value + 1)
  }

  ghost predicate HidesGap(stream: seq<StreamMessage>) {
    exists i, k, j :: 0 <= i < k < j < |stream| && HidesGapAt(stream, i, k, j)
  }

  /** What the checker expects after `stream`, whose last passed message is tx message `i`: the very next mempool number
      if nothing was swallowed since, no more than that if a block was, and a later one if a tx was. */
  ghost predicate ExpectsAfterTx(stream: seq<StreamMessage>, i: nat)
    requires i < |stream| && MempoolSeq(stream[i]).Some?
  {
    var next, e := MempoolSeq(stream[i]).value + 1, StateAfter(stream);
    && e.zmq == Some(stream[i].zmqSeq + 1) && e.mempool.Some? && e.mempool.value.value >= next
    && (e.mempool == Some(NextMempoolSeq.Equal(next)) <==> forall k :: i < k < |stream| ==> !Swallowed(stream, i, k))
    && (e.mempool.value.value > next <==>
          exists k :: i < k < |stream| && Swallowed(stream, i, k) && MempoolSeq(stream[k]).Some?)
  }

  lemma NoneFailedPrefix(stream: seq<StreamMessage>, n: nat)
    requires NoneFailed(stream) && n <= |stream|
    ensures NoneFailed(stream[..n])
    ensures n < |stream| ==> !Failed(Judge(StateAfter(stream[..n]), stream[n]).1)
  {
    hide Judge;
    forall i | 0 <= i < n ensures stream[..n][..i] == stream[..i] && stream[..n][i] == stream[i] {
    }
  }

  /** One more message that does not pass. */
  lemma DroppedExpects(front: seq<StreamMessage>, m: StreamMessage, i: nat)
    requires i < |front| && MempoolSeq(front[i]).Some? && ExpectsAfterTx(front, i)
    requires Judge(StateAfter(front), m).1 == Duplicate
    ensures ExpectsAfterTx(front + [m], i)
  {
    hide StateAfter;
    var stream, n := front + [m], |front|;
    AppendState(front, m);
    assert stream[n] == m && stream[i] == front[i];
    forall k | i < k < n ensures Swallowed(stream, i, k) <==> Swallowed(front, i, k) {
      assert stream[k] == front[k];
    }
    var e, e' := StateAfter(front), Judge(StateAfter(front), m).0;
    if MempoolSeq(m).None? {
      assert Swallowed(stream, i, n);
    } else if e' != e {
      assert Swallowed(stream, i, n);
    }
  }

  /** What the checker expects once tx message `m` has passed. */
  lemma PassedExpects(front: seq<StreamMessage>, m: StreamMessage)
    requires Judge(StateAfter(front), m).1 == Pass && MempoolSeq(m).Some?
    ensures ExpectsAfterTx(front + [m], |front|)
  {
    hide StateAfter;
    AppendState(front, m);
    PassedState(StateAfter(front), m);
  }

  lemma PassedState(e: Expectation, m: StreamMessage)
    requires Judge(e, m).1 == Pass
    ensures Judge(e, m).0.zmq == Some(m.zmqSeq + 1)
    ensures MempoolSeq(m).Some? ==> Judge(e, m).0.mempool == Some(NextMempoolSeq.Equal(MempoolSeq(m).value + 1))
    ensures e.zmq.Some? ==> e.zmq.value == m.zmqSeq
    ensures MempoolSeq(m).Some? && e.mempool.Some? ==>
              if e.mempool.value.Equal? then MempoolSeq(m).value == e.mempool.value.value
              else MempoolSeq(m).value >= e.mempool.value.value
  {
  }

  lemma DroppedState(e: Expectation, m: StreamMessage)
    requires Judge(e, m).1 == Duplicate
    ensures Judge(e, m).0.zmq == e.zmq
  {
  }

  /** The last message let through, and what is expected after it. */
  lemma {:induction false} ExpectsAfterLast(stream: seq<StreamMessage>)
    requires NoneFailed(stream)
    ensures LastPassed(stream).None? ==> PassedOf(stream) == [] && StateAfter(stream).zmq == None
    ensures LastPassed(stream).Some? ==>
              var i := LastPassed(stream).value;
              && i < |stream| && StateAfter(stream).zmq == Some(stream[i].zmqSeq + 1)
              && PassedOf(stream) != [] && PassedOf(stream)[|PassedOf(stream)| - 1] == stream[i]
              && (MempoolSeq(stream[i]).Some? ==> ExpectsAfterTx(stream, i))
    ensures Ahead(PassedOf(stream), StateAfter(stream))
    decreases |stream|
  {
    hide *;
    if stream != [] {
      var n := |stream| - 1;
      var front, m := stream[..n], stream[n];
      assert front + [m] == stream && stream[..n] == front;
      NoneFailedPrefix(stream, n);
      ExpectsAfterLast(front);
      AppendState(front, m);
      AheadStep(PassedOf(front), StateAfter(front), m);
      var c := Judge(StateAfter(front), m).1;
      FailedOrNot(c);
      if c == Pass {
        PassedState(StateAfter(front), m);
        if MempoolSeq(m).Some? {
          PassedExpects(front, m);
        }
      } else {
        DroppedState(StateAfter(front), m);
        assert PassedOf(front) + [] == PassedOf(front);
        if LastPassed(front).Some? && MempoolSeq(front[LastPassed(front).value]).Some? {
          DroppedExpects(front, m, LastPassed(front).value);
        }
      }
    } else {
      NothingExpected(stream);
    }
  }

  lemma NothingExpected(stream: seq<StreamMessage>)
    requires stream == []
    ensures LastPassed(stream).None? && PassedOf(stream) == [] && StateAfter(stream).zmq == None
    ensures Ahead(PassedOf(stream), StateAfter(stream)) && Published(PassedOf(stream)) && !HidesGap(stream)
  {
  }

  lemma FailedOrNot(c: Checked)
    requires !Failed(c)
    ensures c == Pass || c == Duplicate
  {
  }

  lemma {:induction false} LastTxIn(stream: seq<StreamMessage>)
    ensures LastTxSeq(stream).Some? ==> exists i :: 0 <= i < |stream| && MempoolSeq(stream[i]) == LastTxSeq(stream)
  {
    if stream != [] && MempoolSeq(stream[|stream| - 1]).None? {
      LastTxIn(stream[..|stream| - 1]);
      if LastTxSeq(stream).Some? {
        var i :| 0 <= i < |stream| - 1 && MempoolSeq(stream[..|stream| - 1][i]) == LastTxSeq(stream);
        assert MempoolSeq(stream[i]) == LastTxSeq(stream);
      }
    }
  }

  /** A message that passes is one a publisher could have sent next, unless it completes a hidden gap. */
  lemma PassingFollows(front: seq<StreamMessage>, m: StreamMessage)
    requires NoneFailed(front) && Judge(StateAfter(front), m).1 == Pass
    ensures MayFollow(PassedOf(front), m) <==>
              !exists i, k :: 0 <= i < k < |front| && HidesGapAt(front + [m], i, k, |front|)
  {
    hide *;
    ExpectsAfterLast(front);
    PassedState(StateAfter(front), m);
    if LastPassed(front).Some? && MempoolSeq(m).Some? && MempoolSeq(front[LastPassed(front).value]).Some? {
      var i := LastPassed(front).value;
      AfterTxFollows(PassedOf(front), m);
      GapIff(front, m, i);
      GapFromLast(front, m);
    } else {
      AfterBlockFollows(PassedOf(front), StateAfter(front), m);
      GapFromLast(front, m);
    }
  }

  lemma AfterTxFollows(passed: seq<StreamMessage>, m: StreamMessage)
    requires passed != [] && MempoolSeq(passed[|passed| - 1]).Some? && MempoolSeq(m).Some?
    requires m.zmqSeq == passed[|passed| - 1].zmqSeq + 1
    ensures MayFollow(passed, m) <==> MempoolSeq(m).value == MempoolSeq(passed[|passed| - 1]).value + 1
  {
  }

  lemma AfterBlockFollows(passed: seq<StreamMessage>, e: Expectation, m: StreamMessage)
    requires Ahead(passed, e) && Judge(e, m).1 == Pass
    requires passed != [] ==> MempoolSeq(passed[|passed| - 1]).None? || MempoolSeq(m).None?
    ensures MayFollow(passed, m)
  {
    hide InOrder;
    LastTxIn(passed);
    PassedState(e, m);
  }

  lemma GapFromLast(front: seq<StreamMessage>, m: StreamMessage)
    ensures forall i, k :: 0 <= i < k < |front| && HidesGapAt(front + [m], i, k, |front|) ==>
              LastPassed(front) == Some(i) && MempoolSeq(front[i]).Some? && MempoolSeq(m).Some?
  {
    hide LastPassed;
    var stream := front + [m];
    assert stream[..|front|] == front && stream[|front|] == m;
    assert forall i :: 0 <= i < |front| ==> stream[i] == front[i];
  }

  lemma GapIff(front: seq<StreamMessage>, m: StreamMessage, i: nat)
    requires i < |front| && MempoolSeq(front[i]).Some? && MempoolSeq(m).Some? && ExpectsAfterTx(front, i)
    requires LastPassed(front) == Some(i) && Judge(StateAfter(front), m).1 == Pass
    ensures MempoolSeq(m).value != MempoolSeq(front[i]).value + 1 <==>
              exists k :: i < k < |front| && HidesGapAt(front + [m], i, k, |front|)
  {
    hide StateAfter, PassedOf, LastPassed;
    var stream, n := front + [m], |front|;
    assert stream[..n] == front && stream[n] == m && stream[i] == front[i];
    AppendState(front, m);
    PassedState(StateAfter(front), m);
    hide Judge;
    forall k | i < k < n ensures Swallowed(stream, i, k) <==> Swallowed(front, i, k)
                         ensures stream[k] == front[k]
    {
    }
    if MempoolSeq(m).value != MempoolSeq(front[i]).value + 1 {
      if k :| i < k < n && Swallowed(front, i, k) && MempoolSeq(front[k]).Some? {
        assert HidesGapAt(stream, i, k, n);
      } else {
        var k :| i < k < n && Swallowed(front, i, k);
        assert HidesGapAt(stream, i, k, n);
      }
    }
  }

  lemma HidesGapStep(front: seq<StreamMessage>, m: StreamMessage)
    ensures HidesGap(front + [m]) <==>
              HidesGap(front) || exists i, k :: 0 <= i < k < |front| && HidesGapAt(front + [m], i, k, |front|)
  {
    hide LastPassed;
    var stream, n := front + [m], |front|;
    forall i, k, j | 0 <= i < k < j < n ensures HidesGapAt(stream, i, k, j) <==> HidesGapAt(front, i, k, j) {
      assert stream[..j] == front[..j] && stream[i] == front[i] && stream[k] == front[k] && stream[j] == front[j];
    }
  }

  lemma {:induction false} PassedPublishedIff(stream: seq<StreamMessage>)
    requires NoneFailed(stream)
    ensures Published(PassedOf(stream)) <==> !HidesGap(stream)
    decreases |stream|
  {
    hide *;
    if stream == [] {
      NothingExpected(stream);
    } else {
      var n := |stream| - 1;
      var front, m := stream[..n], stream[n];
      assert front + [m] == stream;
      NoneFailedPrefix(stream, n);
      PassedPublishedIff(front);
      AppendState(front, m);
      HidesGapStep(front, m);
      if PassedAt(stream, n) {
        PassingFollows(front, m);
        PublishedMore(PassedOf(front), m);
      } else {
        NotPassedNoGap(front, m);
      }
    }
  }

  lemma PublishedMore(passed: seq<StreamMessage>, m: StreamMessage)
    ensures Published(passed + [m]) <==> Published(passed) && MayFollow(passed, m)
  {
    hide MayFollow;
    assert (passed + [m])[..|passed|] == passed;
  }

  lemma NotPassedNoGap(front: seq<StreamMessage>, m: StreamMessage)
    requires !PassedAt(front + [m], |front|)
    ensures !exists i, k :: 0 <= i < k < |front| && HidesGapAt(front + [m], i, k, |front|)
    ensures PassedOf(front) + [] == PassedOf(front)
  {
  }

  /** What an accepted stream lets through is what a publisher could have sent, precisely if it hides no gap. */
  lemma PublishedIff(stream: seq<StreamMessage>)
    requires !Filtered(START, stream).failed
    ensures Published(Filtered(START, stream).passed) <==> !HidesGap(stream)
  {
    hide HidesGap, Published;
    assert [] + stream == stream;
    FilteredFrom([], stream);
    assert [] + Filtered(START, stream).passed == Filtered(START, stream).passed;
    PassedPublishedIff(stream);
  }

  /** Messages with one publisher's number are one message. */
  ghost predicate Labelled(stream: seq<StreamMessage>) {
    forall i, j :: 0 <= i < j < |stream| && stream[i].zmqSeq == stream[j].zmqSeq ==> stream[i] == stream[j]
  }

  /** With numbers that identify messages, an accepted stream is one a publisher could have sent. */
  lemma AcceptedIsPublished(stream: seq<StreamMessage>)
    requires Labelled(stream) && !Filtered(START, stream).failed
    ensures Published(Filtered(START, stream).passed)
  {
    hide LastPassed, PassedAt, Filtered, Published;
    PublishedIff(stream);
  }

  /** The simplest such stream: a block message that repeats the number of a tx message. */
  lemma MislabelledBlockHidesGap(tx1: StreamMessage, block: StreamMessage, tx2: StreamMessage)
    requires MempoolSeq(tx1).Some? && MempoolSeq(block).None? && MempoolSeq(tx2).Some?
    requires block.zmqSeq == tx1.zmqSeq && tx2.zmqSeq == tx1.zmqSeq + 1
    requires MempoolSeq(tx2).value > MempoolSeq(tx1).value + 1
    ensures Filtered(START, [tx1, block, tx2]) == Outcome([tx1, tx2], false) && !Published([tx1, tx2])
    ensures HidesGap([tx1, block, tx2])
  {
    var stream := [tx1, block, tx2];
    assert stream[1..] == [block, tx2] && stream[1..][1..] == [tx2] && stream[1..][1..][1..] == [];
    var e1 := Judge(START, tx1).0;
    var e2 := Judge(e1, block).0;
    assert Judge(e2, tx2).1 == Pass && [tx2][1..] == [] && [tx2] + [] == [tx2];
    assert Filtered(e2, [tx2]) == Outcome([tx2], false);
    assert Filtered(e1, [block, tx2]) == Outcome([tx2], false);
    assert [tx1, tx2][..1] == [tx1] && LastTxSeq([tx1]) == MempoolSeq(tx1);
    PublishedIff(stream);
  }
}
