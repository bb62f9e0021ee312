/**
 The commit latch of ClearCodec (src/egfx/clearcodec.rs).

 Every encoded rectangle takes the next sequence number of the encoder, modulo 256, and the
 encoder cannot be rolled back.  A frame that was encoded but not wholly enqueued therefore must be
 the last one: the client may never see a gap.
 */
module ClearCodecLatch {
  import opened Regions

  class ClearCodecState {
    /** How many rectangles the encoder has numbered. */
    var encoded: nat
    var uncommitted: bool

    constructor ()
      ensures encoded == 0 && !uncommitted
    {
      encoded, uncommitted := 0, false;
    }

    /** The sequence numbers of a frame's rectangles, or an error while another frame is uncommitted. */
    method Encode(rectangles: nat) returns (r: Option<seq<u8>>)
      modifies this
      ensures old(uncommitted) ==> r == None && encoded == old(encoded) && uncommitted
      ensures !old(uncommitted) ==> r.Some? && |r.value| == rectangles && encoded == old(encoded) + rectangles && uncommitted
      ensures !old(uncommitted) ==> forall k :: 0 <= k < rectangles ==> r.value[k] == (old(encoded) + k) % 256
    {
      if uncommitted {
        return None;
      }
      uncommitted := true;
      var numbers: seq<u8> := [];
      for k := 0 to rectangles
        invariant |numbers| == k && encoded == old(encoded) + k && uncommitted
        invariant forall i :: 0 <= i < k ==> numbers[i] == (old(encoded) + i) % 256
      {
        numbers := numbers + [encoded % 256];
        encoded := encoded + 1;
      }
      r := Some(numbers);
    }

    method Commit()
      modifies `uncommitted
      ensures !uncommitted
    {
      uncommitted := false;
    }
  }

  /** One frame: how many rectangles it has and how many of them the transport takes. */
  datatype Frame = Frame(rectangles: nat, accepted: nat)

  predicate Whole(f: Frame) { f.accepted >= f.rectangles }

  /** How many rectangles reach the client: those of every frame up to the first that is cut short, and what is left of that one. */
  ghost function Reaching(frames: seq<Frame>): nat {
    if frames == [] then 0
    else if Whole(frames[0]) then frames[0].rectangles + Reaching(frames[1..])
    else frames[0].accepted
  }

  /** How many frames come after the first one that is cut short. */
  ghost function TooLate(frames: seq<Frame>): nat {
    if frames == [] then 0 else if Whole(frames[0]) then TooLate(frames[1..]) else |frames| - 1
  }

  lemma {:induction false} OneMoreFrame(frames: seq<Frame>, f: Frame)
    ensures (forall k :: 0 <= k < |frames| ==> Whole(frames[k])) ==> TooLate(frames) == 0
    ensures if forall k :: 0 <= k < |frames| ==> Whole(frames[k])
            then Reaching(frames + [f]) == Reaching(frames) + (if Whole(f) then f.rectangles else f.accepted) && TooLate(frames + [f]) == 0
            else Reaching(frames + [f]) == Reaching(frames) && TooLate(frames + [f]) == TooLate(frames) + 1
    decreases |frames|
  {
    if frames == [] {
      assert [f][1..] == [];
    } else {
      assert (frames + [f])[1..] == frames[1..] + [f];
      OneMoreFrame(frames[1..], f);
      assert forall k :: 1 <= k < |frames| ==> frames[k] == frames[1..][k - 1];
    }
  }

  /**
   Whatever the transport drops, the client receives consecutive sequence numbers: all of them up to where
   the first frame is cut short, and then no more, because every later frame is refused.
   */
  method Run(frames: seq<Frame>) returns (received: seq<u8>, refused: nat)
    ensures forall k :: 0 <= k < |received| ==> received[k] == k % 256
    ensures |received| == Reaching(frames) && refused == TooLate(frames)
  {
    var state := new ClearCodecState();
    received, refused := [], 0;
    for f := 0 to |frames|
      invariant forall k :: 0 <= k < |received| ==> received[k] == k % 256
      invariant !state.uncommitted ==> |received| == state.encoded
      invariant |received| == Reaching(frames[..f]) && refused == TooLate(frames[..f])
      invariant state.uncommitted <==> exists k :: 0 <= k < f && !Whole(frames[..f][k])
    {
      OneMoreFrame(frames[..f], frames[f]);
      assert frames[..f + 1] == frames[..f] + [frames[f]];
      var numbers := state.Encode(frames[f].rectangles);
      if numbers.None? {
        refused := refused + 1;
      } else if frames[f].accepted >= frames[f].rectangles {
        received := received + numbers.value;
        state.Commit();
      } else {
        received := received + numbers.value[..frames[f].accepted];
      }
    }
    assert frames[..|frames|] == frames;
  }
}
