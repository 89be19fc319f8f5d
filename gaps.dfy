/**
 * The gap detector, `Utility.FindMissingPackets`: which sequence numbers between 1 and the
 * highest one seen never arrived.
 */
module GapDetector {
  import opened FrameCodec
  import opened Collections

  /**
   * The gaps up to max: every integer in [1, max] that is not among the received sequences,
   * ascending; nothing when max < 1.
   */
  function Missing(received: seq<int>, max: int32): (m: seq<int32>)
    ensures forall x :: x in m <==> 1 <= x <= max && x !in received
    ensures StrictlySortedBy<int>(m, Identity)
    decreases max
  {
    if max < 1 then []
    else
      var earlier := Missing(received, max - 1);
      assert forall k :: 0 <= k < |earlier| ==> earlier[k] < max by {
        forall k | 0 <= k < |earlier| ensures earlier[k] < max {
          assert earlier[k] in earlier;
        }
      }
      earlier + (if max in received then [] else [max])
  }

  /**
   * Missing is the one ascending list of the gaps: any ascending list holding exactly the
   * integers of [1, max] absent from the received sequences is equal to it.
   */
  lemma MissingIsTheGapList(received: seq<int>, max: int32, gaps: seq<int>)
    requires StrictlySortedBy(gaps, Identity)
    requires forall x :: x in gaps <==> 1 <= x <= max && x !in received
    ensures gaps == Missing(received, max)
  {
    StrictlySortedIsDeterminedByElements(gaps, Missing(received, max), Identity);
  }

  /** The gaps depend on which sequences were received, not on their order or repetitions. */
  lemma MissingDependsOnlyOnElements(a: seq<int>, b: seq<int>, max: int32)
    requires forall x :: x in a <==> x in b
    ensures Missing(a, max) == Missing(b, max)
  {
    StrictlySortedIsDeterminedByElements<int>(Missing(a, max), Missing(b, max), Identity);
  }

  /**
   * `Utility.FindMissingPackets`: sorts the received list in place, then walks 1..max and
   * collects every number the binary search does not find.
   */
  method FindMissingPackets(packetSequenceList: List<int>, maxPacketSequence: int32)
    returns (missingPacketSequenceList: seq<int32>)
    modifies packetSequenceList
    ensures SortedBy(packetSequenceList.items, Identity)
    ensures multiset(packetSequenceList.items) == multiset(old(packetSequenceList.items))
    ensures missingPacketSequenceList == Missing(old(packetSequenceList.items), maxPacketSequence)
  {
    missingPacketSequenceList := [];
    packetSequenceList.Sort(Identity);
    ghost var sorted := packetSequenceList.items;
    var i := 1;
    while i <= maxPacketSequence
      invariant 1 <= i && (i <= maxPacketSequence + 1 || i == 1)
      invariant packetSequenceList.items == sorted
      invariant missingPacketSequenceList == Missing(sorted, i - 1)
    {
      var found := BinarySearch(packetSequenceList.items, i);
      if found < 0 {
        missingPacketSequenceList := missingPacketSequenceList + [i];
      }
      i := i + 1;
    }
    forall x ensures x in sorted <==> x in old(packetSequenceList.items) {
      assert x in sorted <==> x in multiset(sorted);
    }
    MissingDependsOnlyOnElements(sorted, old(packetSequenceList.items), maxPacketSequence);
  }
}
