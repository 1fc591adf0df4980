/**
 CAN 2.0 frames: the contract of the `Frame` trait in src/can.rs, realised as
 one reference representation.

 A frame is built once by `New` (data frame) or `NewRemote` (remote frame)
 and then only read. `WellFormed` is the invariant every frame obtained from
 them satisfies: a valid identifier, a DLC of at most 8, a data frame's DLC
 equal to its payload length, a remote frame with no payload.
 */
module CanFrame {
  import opened Wrappers
  import opened CanId

  type u8 = x: int | 0 <= x < 0x100

  /** Largest data length code of a CAN 2.0 frame (and largest payload). */
  const MAX_DLC: nat := 8

  datatype Frame = Frame(id: Id, remote: bool, dlc: nat, data: seq<u8>) {

    predicate IsExtended()
    {
      id.Extended?
    }

    /** The trait's provided method: the negation of `IsExtended`. */
    predicate IsStandard()
    {
      !IsExtended()
    }

    predicate IsRemoteFrame()
    {
      remote
    }

    /** The trait's provided method: the negation of `IsRemoteFrame`. */
    predicate IsDataFrame()
    {
      !IsRemoteFrame()
    }

    /** What the doc comments of `dlc()` and `data()` promise of a frame. */
    predicate WellFormed()
    {
      && id.Valid()
      && dlc <= MAX_DLC
      && |data| <= MAX_DLC
      && (IsDataFrame() ==> |data| == dlc)
      && (IsRemoteFrame() ==> data == [])
    }
  }

  /** `Frame::new`: a data frame carrying `data`. Fails (with the source's
      unit error) when the identifier is invalid or the payload is longer
      than 8 bytes. */
  function New(id: Id, data: seq<u8>): (r: Result<Frame, ()>)
    ensures r.Failure? <==> !id.Valid() || |data| > MAX_DLC
    ensures r.Success? ==>
      && r.value.WellFormed()
      && r.value.IsDataFrame()
      && r.value.id == id
      && r.value.data == data
      && r.value.dlc == |data|
  {
    if !id.Valid() || |data| > MAX_DLC then Failure(())
    else Success(Frame(id, false, |data|, data))
  }

  /** `Frame::new_remote`: a remote frame requesting `dlc` bytes. Fails when
      the identifier is invalid or the DLC is above 8. */
  function NewRemote(id: Id, dlc: nat): (r: Result<Frame, ()>)
    ensures r.Failure? <==> !id.Valid() || dlc > MAX_DLC
    ensures r.Success? ==>
      && r.value.WellFormed()
      && r.value.IsRemoteFrame()
      && r.value.id == id
      && r.value.data == []
      && r.value.dlc == dlc
  {
    if !id.Valid() || dlc > MAX_DLC then Failure(())
    else Success(Frame(id, true, dlc, []))
  }

  /** The two constructors reach every well-formed frame, and only those:
      each well-formed frame is rebuilt exactly by the constructor of its
      kind from its own identifier and payload or DLC. */
  lemma ConstructorsReachWellFormed(f: Frame)
    ensures f.WellFormed() && f.IsDataFrame() ==> New(f.id, f.data) == Success(f)
    ensures f.WellFormed() && f.IsRemoteFrame() ==> NewRemote(f.id, f.dlc) == Success(f)
    ensures New(f.id, f.data) == Success(f) || NewRemote(f.id, f.dlc) == Success(f) ==> f.WellFormed()
  {
  }

  /** The provided methods `is_standard` and `is_data_frame` are the
      complements of `is_extended` and `is_remote_frame`, and they read the
      identifier's variant and the frame kind. */
  lemma KindPredicatesComplementary(f: Frame)
    ensures f.IsStandard() != f.IsExtended()
    ensures f.IsDataFrame() != f.IsRemoteFrame()
    ensures f.IsStandard() <==> f.id.Standard?
  {
  }
}
