/**
 * The client session of `Program.Main`, with the sockets replaced by inputs. Phase 1 sends
 * the stream-all request and decodes every frame the server streams; the gap detector then
 * lists the missing sequence numbers; phase 2 sends one resend request per missing number and
 * decodes the reply, if there is one; finally the records are sorted by sequence number.
 *
 * Phase 1's input is the list of frames the stream delivers before it ends. Phase 2's input
 * is the list of replies, the k-th answering the k-th resend request; `None` (and any position
 * past the end of the list) is a read that returned no bytes.
 */
module Session {
  import opened Wrappers
  import opened FrameCodec
  import opened Collections
  import opened GapDetector

  /** The key of the final sort: `x.PacketSequence`. */
  function SequenceKey(r: StockTickerData): int {
    r.PacketSequence
  }

  /** The record a frame decodes to, as a list of zero or one records. */
  function DecodeOne(frame: seq<byte>): seq<StockTickerData> {
    match ExtractStockDataFromBuffer(Some(frame))
    case None => []
    case Some(r) => [r]
  }

  /** Phase 1's records: every successfully decoded frame, in arrival order. */
  function Decoded(frames: seq<seq<byte>>): seq<StockTickerData> {
    if frames == [] then []
    else Decoded(frames[..|frames| - 1]) + DecodeOne(frames[|frames| - 1])
  }

  /** The sequence numbers of a list of records, position by position. */
  function Sequences(records: seq<StockTickerData>): (s: seq<int32>)
    ensures |s| == |records|
    ensures forall k :: 0 <= k < |records| ==> s[k] == records[k].PacketSequence
  {
    if records == [] then []
    else Sequences(records[..|records| - 1]) + [records[|records| - 1].PacketSequence]
  }

  /**
   * The highest sequence number seen, starting from -1: the maximum of -1 and every element.
   */
  function MaxSequence(sequences: seq<int32>): (m: int32)
    ensures -1 <= m
    ensures forall x :: x in sequences ==> x <= m
    ensures m == -1 || m in sequences
  {
    if sequences == [] then -1
    else
      var earlier := sequences[..|sequences| - 1];
      var last := sequences[|sequences| - 1];
      assert sequences == earlier + [last];
      var m := MaxSequence(earlier);
      if m < last then last else m
  }

  /** The reply to the k-th resend request; none once the replies run out. */
  function ReplyAt(replies: seq<Option<Frame>>, k: nat): Option<Frame> {
    if k < |replies| then replies[k] else None
  }

  /** The record one reply contributes: none when the read returned no bytes. */
  function ReplyRecords(reply: Option<Frame>): seq<StockTickerData> {
    match reply
    case None => []
    case Some(frame) => DecodeOne(frame)
  }

  /** Phase 2's records: those decoded from the replies to the first n resend requests. */
  function Recovered(replies: seq<Option<Frame>>, n: nat): seq<StockTickerData> {
    if n == 0 then [] else Recovered(replies, n - 1) + ReplyRecords(ReplyAt(replies, n - 1))
  }

  /** Each resend request contributes at most one record: a reply is read once and decoded once. */
  lemma {:induction false} RecoveredAtMostOnePerRequest(replies: seq<Option<Frame>>, n: nat)
    ensures |Recovered(replies, n)| <= n
  {
    if n > 0 {
      RecoveredAtMostOnePerRequest(replies, n - 1);
      assert |ReplyRecords(ReplyAt(replies, n - 1))| <= 1;
    }
  }

  /** The resend requests for a list of missing sequence numbers: one per number, in order. */
  function ResendRequests(missing: seq<int32>): (r: seq<seq<byte>>)
    ensures |r| == |missing|
    ensures forall k :: 0 <= k < |missing| ==> r[k] == ResendRequest(missing[k])
  {
    if missing == [] then []
    else ResendRequests(missing[..|missing| - 1]) + [ResendRequest(missing[|missing| - 1])]
  }

  /** The missing sequence numbers after phase 1. */
  function Phase1Missing(frames: seq<seq<byte>>): seq<int32> {
    var sequences := Sequences(Decoded(frames));
    Missing(sequences, MaxSequence(sequences))
  }

  /** Everything collected over both phases, before the sort: phase 1's records, then phase 2's. */
  function Collected(frames: seq<seq<byte>>, replies: seq<Option<Frame>>): seq<StockTickerData> {
    Decoded(frames) + Recovered(replies, |Phase1Missing(frames)|)
  }

  /**
   * Phase 1 of `Main`: for every frame the stream delivers, decode it; on success append the
   * record to tickerDataList, its sequence number to packetSequenceList, and raise
   * maxPacketSequence (which starts at -1) when the number is higher.
   */
  method StreamAll(frames: seq<Frame>, tickerDataList: List<StockTickerData>, packetSequenceList: List<int>)
    returns (maxPacketSequence: int32)
    requires tickerDataList.items == [] && packetSequenceList.items == []
    modifies tickerDataList, packetSequenceList
    ensures tickerDataList.items == Decoded(frames)
    ensures packetSequenceList.items == Sequences(tickerDataList.items)
    ensures maxPacketSequence == MaxSequence(Sequences(tickerDataList.items))
  {
    maxPacketSequence := -1;
    var n := 0;
    assert Decoded(frames[..0]) == [] by {
      assert frames[..0] == [];
    }
    while n < |frames|
      invariant 0 <= n <= |frames|
      invariant tickerDataList.items == Decoded(frames[..n])
      invariant packetSequenceList.items == Sequences(tickerDataList.items)
      invariant maxPacketSequence == MaxSequence(Sequences(tickerDataList.items))
    {
      DecodedStep(frames, n);
      var tickerData := ExtractStockDataFromBuffer(Some(frames[n]));
      if tickerData.Some? {
        var r := tickerData.value;
        SequencesSnoc(tickerDataList.items, r);
        MaxSequenceSnoc(Sequences(tickerDataList.items), r.PacketSequence);
        tickerDataList.Add(r);
        packetSequenceList.Add(r.PacketSequence);
        if maxPacketSequence < r.PacketSequence {
          maxPacketSequence := r.PacketSequence;
        }
      }
      assert tickerDataList.items == Decoded(frames[..n + 1]);
      n := n + 1;
    }
    assert frames[..n] == frames;
  }

  /**
   * Phase 2 of `Main`: for each missing sequence number, in order, send `[2, selector]`, read
   * one reply, and append the record it decodes to, if any.
   */
  method RequestMissing(missing: seq<int32>, replies: seq<Option<Frame>>, tickerDataList: List<StockTickerData>)
    returns (requests: seq<seq<byte>>)
    modifies tickerDataList
    ensures requests == ResendRequests(missing)
    ensures tickerDataList.items == old(tickerDataList.items) + Recovered(replies, |missing|)
  {
    requests := [];
    ghost var initial := tickerDataList.items;
    var k := 0;
    assert ResendRequests(missing[..0]) == [] by {
      assert missing[..0] == [];
    }
    while k < |missing|
      invariant 0 <= k <= |missing|
      invariant requests == ResendRequests(missing[..k])
      invariant tickerDataList.items == initial + Recovered(replies, k)
    {
      ResendRequestsStep(missing, k);
      var requestPayload := ResendRequest(missing[k]);
      requests := requests + [requestPayload];
      var reply := ReplyAt(replies, k);
      ReplyRecordsOf(reply);
      ghost var before := tickerDataList.items;
      if reply.Some? {
        var tickerData := ExtractStockDataFromBuffer(Some(reply.value));
        if tickerData.Some? {
          tickerDataList.Add(tickerData.value);
        }
      }
      assert tickerDataList.items == before + ReplyRecords(reply);
      assert Recovered(replies, k + 1) == Recovered(replies, k) + ReplyRecords(reply);
      assert tickerDataList.items == initial + Recovered(replies, k + 1);
      k := k + 1;
    }
    assert missing[..k] == missing;
  }

  /**
   * The whole client run: the requests it writes and the list it hands to the JSON writer.
   * The output is the phase-1 records and the decoded resend replies, sorted by sequence
   * number, with nothing dropped and nothing merged.
   */
  method RunClient(frames: seq<Frame>, replies: seq<Option<Frame>>)
    returns (output: seq<StockTickerData>, requests: seq<seq<byte>>)
    ensures requests == [StreamAllRequest] + ResendRequests(Phase1Missing(frames))
    ensures SortedBy(output, SequenceKey)
    ensures multiset(output) == multiset(Collected(frames, replies))
    ensures multiset(Sequences(output)) == multiset(Sequences(Collected(frames, replies)))
  {
    requests := [StreamAllRequest];
    var tickerDataList := new List<StockTickerData>();
    var packetSequenceList := new List<int>();
    var maxPacketSequence := StreamAll(frames, tickerDataList, packetSequenceList);
    var missingPacketSequenceList := FindMissingPackets(packetSequenceList, maxPacketSequence);
    var resendRequests := RequestMissing(missingPacketSequenceList, replies, tickerDataList);
    requests := requests + resendRequests;
    tickerDataList.Sort(SequenceKey);
    output := tickerDataList.items;
    PermutationKeepsSequences(output, Collected(frames, replies));
  }

  /** The sequence numbers of two lists of records, concatenated. */
  lemma SequencesAppend(a: seq<StockTickerData>, b: seq<StockTickerData>)
    ensures Sequences(a + b) == Sequences(a) + Sequences(b)
  {
  }

  /** Phase 1 over one more whole frame: that frame's record comes last. */
  lemma DecodedStep(frames: seq<Frame>, n: nat)
    requires n < |frames|
    ensures Decoded(frames[..n + 1]) == Decoded(frames[..n]) + [ExtractStockDataFromBuffer(Some(frames[n])).value]
  {
    assert frames[..n + 1][..n] == frames[..n];
  }

  /** One more record adds its sequence number at the end. */
  lemma SequencesSnoc(records: seq<StockTickerData>, r: StockTickerData)
    ensures Sequences(records + [r]) == Sequences(records) + [r.PacketSequence]
  {
    assert (records + [r])[..|records|] == records;
  }

  /** The running maximum rises to a new sequence number exactly when that number is higher. */
  lemma MaxSequenceSnoc(sequences: seq<int32>, x: int32)
    ensures MaxSequence(sequences + [x]) == if MaxSequence(sequences) < x then x else MaxSequence(sequences)
  {
    assert (sequences + [x])[..|sequences|] == sequences;
  }

  /** A reply, when there is one, is a whole frame and so contributes exactly its record. */
  lemma ReplyRecordsOf(reply: Option<Frame>)
    ensures ReplyRecords(reply) == if reply.Some? then [ExtractStockDataFromBuffer(Some(reply.value)).value] else []
  {
  }

  /** One more missing number adds its resend request at the end. */
  lemma ResendRequestsStep(missing: seq<int32>, k: nat)
    requires k < |missing|
    ensures ResendRequests(missing[..k + 1]) == ResendRequests(missing[..k]) + [ResendRequest(missing[k])]
  {
    assert missing[..k + 1][..k] == missing[..k];
  }

  /** Rearranging records rearranges their sequence numbers the same way. */
  lemma {:induction false} PermutationKeepsSequences(a: seq<StockTickerData>, b: seq<StockTickerData>)
    requires multiset(a) == multiset(b)
    ensures multiset(Sequences(a)) == multiset(Sequences(b))
    decreases |a|
  {
    if a == [] {
      assert |b| == |multiset(b)| == 0;
      assert b == [];
    } else {
      assert a[0] in multiset(b);
      var i :| 0 <= i < |b| && b[i] == a[0];
      RemoveAt(a, 0);
      RemoveAt(b, i);
      SequencesAround(a, 0);
      SequencesAround(b, i);
      PermutationKeepsSequences(a[..0] + a[1..], b[..i] + b[i + 1..]);
      var p := a[0].PacketSequence;
      var a0, a1, b0, b1 := Sequences(a[..0]), Sequences(a[1..]), Sequences(b[..i]), Sequences(b[i + 1..]);
      assert multiset(a0) + multiset(a1) == multiset(b0) + multiset(b1) by {
        assert multiset(a0 + a1) == multiset(b0 + b1);
      }
      assert multiset(Sequences(a)) == multiset(a0) + multiset{p} + multiset(a1) by {
        assert Sequences(a) == a0 + [p] + a1;
      }
      assert multiset(Sequences(b)) == multiset(b0) + multiset{p} + multiset(b1) by {
        assert Sequences(b) == b0 + [p] + b1;
      }
      SameWithOneMore(multiset(a0), multiset(a1), multiset(b0), multiset(b1), p);
    }
  }

  /** Adding the same element in the middle of two equal unions keeps them equal. */
  lemma SameWithOneMore(x0: multiset<int32>, x1: multiset<int32>, y0: multiset<int32>, y1: multiset<int32>, p: int32)
    requires x0 + x1 == y0 + y1
    ensures x0 + multiset{p} + x1 == y0 + multiset{p} + y1
  {
    assert x0 + multiset{p} + x1 == (x0 + x1) + multiset{p};
    assert y0 + multiset{p} + y1 == (y0 + y1) + multiset{p};
  }

  /** The sequence numbers of a list split around its i-th record. */
  lemma SequencesAround(b: seq<StockTickerData>, i: nat)
    requires i < |b|
    ensures Sequences(b) == Sequences(b[..i]) + [b[i].PacketSequence] + Sequences(b[i + 1..])
    ensures Sequences(b[..i] + b[i + 1..]) == Sequences(b[..i]) + Sequences(b[i + 1..])
  {
    RemoveAt(b, i);
    SequencesAppend(b[..i] + [b[i]], b[i + 1..]);
    SequencesAppend(b[..i], [b[i]]);
    SequencesAppend(b[..i], b[i + 1..]);
  }
}
