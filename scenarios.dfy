/**
 * Concrete runs of the client: the gap list for a stream with one hole, an empty stream, a
 * hole filled by a resend, and a sequence number too large for the selector byte.
 */
module Scenarios {
  import opened Wrappers
  import opened FrameCodec
  import opened Collections
  import opened GapDetector
  import opened Session
  import opened SessionProperties

  /** Sequences 1, 2, 4 and 5 received, max 5: only 3 is missing. */
  lemma OneHole()
    ensures Missing([1, 2, 4, 5], 5) == [3]
  {
    MissingIsTheGapList([1, 2, 4, 5], 5, [3]);
  }

  /** Nothing streamed: the maximum stays -1, nothing is missing, nothing is output. */
  lemma EmptyStream(replies: seq<Option<Frame>>)
    ensures MaxSequence(Sequences(Decoded([]))) == -1
    ensures Phase1Missing([]) == []
    ensures Collected([], replies) == []
  {
  }

  /** Three records of one feed, carrying sequence numbers 1, 2 and 3. */
  predicate NumberedOneTwoThree(r1: StockTickerData, r2: StockTickerData, r3: StockTickerData) {
    WellFormed(r1) && WellFormed(r2) && WellFormed(r3) &&
    r1.PacketSequence == 1 && r2.PacketSequence == 2 && r3.PacketSequence == 3
  }

  /** Phase 1 decodes the frames of records 1 and 3, in that order. */
  lemma HoleStreamDecoded(r1: StockTickerData, r2: StockTickerData, r3: StockTickerData)
    requires NumberedOneTwoThree(r1, r2, r3)
    ensures Decoded([EncodeFrame(r1), EncodeFrame(r3)]) == [r1, r3]
  {
    var frames: seq<Frame> := [EncodeFrame(r1), EncodeFrame(r3)];
    FrameRoundTrip(r1);
    FrameRoundTrip(r3);
    EveryFrameDecodes(frames);
    assert DecodeFrame(frames[0]) == r1;
    assert DecodeFrame(frames[1]) == r3;
  }

  /** Phase 1 receives 1 and 3: the highest is 3 and 2 is missing. */
  lemma HoleDetected(r1: StockTickerData, r2: StockTickerData, r3: StockTickerData)
    requires NumberedOneTwoThree(r1, r2, r3)
    ensures Phase1Missing([EncodeFrame(r1), EncodeFrame(r3)]) == [2]
  {
    HoleStreamDecoded(r1, r2, r3);
    ReceivedOneAndThree(r1, r3);
    GapAtTwo();
  }

  /** The sequence numbers of records 1 and 3. */
  lemma ReceivedOneAndThree(r1: StockTickerData, r3: StockTickerData)
    requires r1.PacketSequence == 1 && r3.PacketSequence == 3
    ensures Sequences([r1, r3]) == [1, 3]
  {
  }

  /** Received 1 and 3: the highest is 3 and the only gap is 2. */
  lemma GapAtTwo()
    ensures MaxSequence([1, 3]) == 3
    ensures Missing([1, 3], 3) == [2]
  {
    assert [1, 3][..1] == [1];
    MissingIsTheGapList([1, 3], 3, [2]);
  }

  /** The reply to the one resend request decodes to record 2. */
  lemma HoleReplyDecoded(r2: StockTickerData)
    requires WellFormed(r2)
    ensures Recovered([Some(EncodeFrame(r2))], 1) == [r2]
  {
    FrameRoundTrip(r2);
  }

  /** The reply to the resend of 2 is collected after phase 1's records. */
  lemma HoleFilledCollected(r1: StockTickerData, r2: StockTickerData, r3: StockTickerData)
    requires NumberedOneTwoThree(r1, r2, r3)
    ensures Collected([EncodeFrame(r1), EncodeFrame(r3)], [Some(EncodeFrame(r2))]) == [r1, r3, r2]
  {
    HoleStreamDecoded(r1, r2, r3);
    HoleDetected(r1, r2, r3);
    HoleReplyDecoded(r2);
  }

  /**
   * Phase 1 receives records 1 and 3 and the resend of 2 is answered: whatever order the
   * sort leaves, the output is records 1, 2, 3.
   */
  lemma HoleFilledByResend(r1: StockTickerData, r2: StockTickerData, r3: StockTickerData, output: seq<StockTickerData>)
    requires NumberedOneTwoThree(r1, r2, r3)
    requires SortedBy(output, SequenceKey)
    requires multiset(output) == multiset(Collected([EncodeFrame(r1), EncodeFrame(r3)], [Some(EncodeFrame(r2))]))
    ensures output == [r1, r2, r3]
  {
    HoleFilledCollected(r1, r2, r3);
    SortedByNumber(r1, r2, r3, output);
  }

  /** Sorting records 1, 3, 2 by sequence number can only give 1, 2, 3. */
  lemma SortedByNumber(r1: StockTickerData, r2: StockTickerData, r3: StockTickerData, output: seq<StockTickerData>)
    requires NumberedOneTwoThree(r1, r2, r3)
    requires SortedBy(output, SequenceKey)
    requires multiset(output) == multiset([r1, r3, r2])
    ensures output == [r1, r2, r3]
  {
    var expected := [r1, r2, r3];
    assert multiset(output) == multiset(expected) by {
      assert multiset(expected) == multiset([r1, r3, r2]);
    }
    NumberedInOrder(r1, r2, r3);
    SortIsUniqueWhenKeysDiffer(output, expected, SequenceKey);
  }

  /** Records 1, 2, 3 in that order have strictly ascending sequence numbers. */
  lemma NumberedInOrder(r1: StockTickerData, r2: StockTickerData, r3: StockTickerData)
    requires NumberedOneTwoThree(r1, r2, r3)
    ensures StrictlySortedBy([r1, r2, r3], SequenceKey)
  {
  }

  /** Sequence 300 is requested with selector 44: the request names another record. */
  lemma SequenceBeyondSelector()
    ensures ResendRequest(300) == [2, 44] == ResendRequest(44)
  {
    SelectorOf300();
  }
}
