/**
 * What a client run guarantees, and where the code falls short of the protocol's intent:
 * every streamed frame is kept. The remaining properties hold against a server that answers
 * each resend request with the record its selector names: when all phase-1 sequence numbers
 * are in 1..255, the output covers [1, max] with nothing else; above 255 the selector
 * truncates, so a missing number is not recovered, and a record the truncated selector names
 * that phase 1 already received is kept a second time.
 */
module SessionProperties {
  import opened Wrappers
  import opened FrameCodec
  import opened Session

  /** The record a whole frame decodes to (a 17-byte buffer always decodes). */
  function DecodeFrame(frame: Frame): StockTickerData {
    ExtractStockDataFromBuffer(Some(frame)).value
  }

  lemma DecodeOneFrame(frame: Frame)
    ensures DecodeOne(frame) == [DecodeFrame(frame)]
  {
  }

  /**
   * The client reads into a fixed 17-byte buffer, so no frame of phase 1 is ever rejected:
   * the k-th record is the k-th frame's.
   */
  lemma {:induction false} EveryFrameDecodes(frames: seq<Frame>)
    ensures |Decoded(frames)| == |frames|
    ensures forall k :: 0 <= k < |frames| ==> Decoded(frames)[k] == DecodeFrame(frames[k])
  {
    if frames != [] {
      var n := |frames| - 1;
      EveryFrameDecodes(frames[..n]);
      DecodeOneFrame(frames[n]);
      assert Decoded(frames) == Decoded(frames[..n]) + [DecodeFrame(frames[n])];
    }
  }

  /** The server answers a resend request with a record whose sequence number is the selector. */
  predicate AnswersSelector(reply: Option<Frame>, request: seq<byte>)
    requires |request| == 2
  {
    reply.Some? && DecodeFrame(reply.value).PacketSequence == request[1]
  }

  /** Every resend request of the run is answered that way. */
  predicate ServerAnswersSelectors(missing: seq<int32>, replies: seq<Option<Frame>>) {
    forall k :: 0 <= k < |missing| ==> AnswersSelector(ReplyAt(replies, k), ResendRequest(missing[k]))
  }

  /** The selector bytes the resend requests for a list of missing numbers carry. */
  function Selectors(missing: seq<int32>): (r: seq<int>)
    ensures |r| == |missing|
    ensures forall k :: 0 <= k < |missing| ==> r[k] == GetMostSignificantByte(missing[k])
  {
    seq(|missing|, k requires 0 <= k < |missing| => GetMostSignificantByte(missing[k]))
  }

  /**
   * Against such a server, phase 2 yields one record per missing number, and the k-th carries
   * the selector of the k-th missing number: that number modulo 256, not the number.
   */
  lemma {:induction false} RecoveredFollowSelectors(missing: seq<int32>, replies: seq<Option<Frame>>, n: nat)
    requires ServerAnswersSelectors(missing, replies)
    requires n <= |missing|
    ensures Sequences(Recovered(replies, n)) == Selectors(missing[..n])
  {
    if n > 0 {
      RecoveredFollowSelectors(missing, replies, n - 1);
      var reply := ReplyAt(replies, n - 1);
      AnsweredReplySequence(reply, ResendRequest(missing[n - 1]));
      SequencesAppend(Recovered(replies, n - 1), ReplyRecords(reply));
      SelectorsStep(missing, n);
    }
  }

  /** A reply that answers a request's selector contributes exactly that sequence number. */
  lemma AnsweredReplySequence(reply: Option<Frame>, request: seq<byte>)
    requires |request| == 2 && AnswersSelector(reply, request)
    ensures Sequences(ReplyRecords(reply)) == [request[1] as int32]
  {
    DecodeOneFrame(reply.value);
  }

  /** The selectors of one more missing number: its selector comes last. */
  lemma SelectorsStep(missing: seq<int32>, n: nat)
    requires 0 < n <= |missing|
    ensures Selectors(missing[..n]) == Selectors(missing[..n - 1]) + [GetMostSignificantByte(missing[n - 1])]
  {
  }

  /** No selector reaches 256. */
  lemma NotASelector(missing: seq<int32>, s: int)
    requires 0x100 <= s
    ensures s !in Selectors(missing)
  {
  }

  /** The sequence numbers collected over both phases: phase 1's, then the selectors answered. */
  lemma CollectedSequences(frames: seq<seq<byte>>, replies: seq<Option<Frame>>)
    requires ServerAnswersSelectors(Phase1Missing(frames), replies)
    ensures Sequences(Collected(frames, replies)) == Sequences(Decoded(frames)) + Selectors(Phase1Missing(frames))
  {
    var missing := Phase1Missing(frames);
    RecoveredFollowSelectors(missing, replies, |missing|);
    assert missing[..|missing|] == missing;
    SequencesAppend(Decoded(frames), Recovered(replies, |missing|));
  }

  /**
   * Gap-free output: when every streamed sequence number is positive, the highest is at most
   * 255, and the server answers each request with the record its selector names, the collected sequence numbers (and so those of
   * the client's output) are exactly 1..max.
   */
  lemma GapFreeWhenSequencesFitSelector(frames: seq<seq<byte>>, replies: seq<Option<Frame>>)
    requires forall s :: s in Sequences(Decoded(frames)) ==> 1 <= s
    requires MaxSequence(Sequences(Decoded(frames))) < 0x100
    requires ServerAnswersSelectors(Phase1Missing(frames), replies)
    ensures var max := MaxSequence(Sequences(Decoded(frames)));
      forall s :: s in Sequences(Collected(frames, replies)) <==> 1 <= s <= max
  {
    var received := Sequences(Decoded(frames));
    var max := MaxSequence(received);
    var missing := Phase1Missing(frames);
    CollectedSequences(frames, replies);
    assert Selectors(missing) == missing by {
      forall k | 0 <= k < |missing| ensures Selectors(missing)[k] == missing[k] {
        assert missing[k] in missing;
        SelectorIsExactOnlyForBytes(missing[k]);
      }
    }
    assert Sequences(Collected(frames, replies)) == received + missing;
    forall s ensures s in received + missing <==> 1 <= s <= max {
      if s in received {
        assert 1 <= s <= max;
      } else if s in missing {
        assert 1 <= s <= max;
      }
    }
  }

  /**
   * Against a server that answers selectors, a missing number above 255 is not recovered: its
   * request asks for the number modulo 256, and the number is absent from the output (it was
   * absent from phase 1, being missing).
   */
  lemma TruncatedSelectorLosesSequence(frames: seq<seq<byte>>, replies: seq<Option<Frame>>, k: nat)
    requires ServerAnswersSelectors(Phase1Missing(frames), replies)
    requires k < |Phase1Missing(frames)| && Phase1Missing(frames)[k] >= 0x100
    ensures Phase1Missing(frames)[k] !in Sequences(Collected(frames, replies))
  {
    var received := Sequences(Decoded(frames));
    var missing := Phase1Missing(frames);
    var s := missing[k];
    CollectedSequences(frames, replies);
    assert s in missing;
    assert s !in received;
    NotASelector(missing, s);
    assert s !in received + Selectors(missing);
  }

  /**
   * No deduplication: against a server that answers selectors, when the selector of a missing
   * number names a sequence number phase 1 already received, the collected records (and so the
   * output) carry that number twice.
   */
  lemma DuplicatesKept(frames: seq<seq<byte>>, replies: seq<Option<Frame>>, k: nat)
    requires ServerAnswersSelectors(Phase1Missing(frames), replies)
    requires k < |Phase1Missing(frames)|
    requires GetMostSignificantByte(Phase1Missing(frames)[k]) in Sequences(Decoded(frames))
    ensures multiset(Sequences(Collected(frames, replies)))[GetMostSignificantByte(Phase1Missing(frames)[k])] >= 2
  {
    var missing := Phase1Missing(frames);
    var s := GetMostSignificantByte(missing[k]);
    CollectedSequences(frames, replies);
    TwiceInAppend(Sequences(Decoded(frames)), Selectors(missing), k, s);
  }

  /** A value in the first list and at position k of the second occurs twice in their concatenation. */
  lemma TwiceInAppend(x: seq<int>, y: seq<int>, k: nat, v: int)
    requires v in x && k < |y| && y[k] == v
    ensures multiset(x + y)[v] >= 2
  {
    assert v in multiset(y);
    assert multiset(x + y) == multiset(x) + multiset(y);
  }
}
