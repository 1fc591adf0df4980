/**
 The filter state of a `FilteredReceiver` (src/can.rs): the filters that are
 enabled, each in the group whose slot it occupies. `add_filter` enables one
 more filter, `clear_filters` disables all of them, and a received frame
 reaches `receive` only when some enabled filter passes it.

 Which slot a driver picks is hardware-defined; here the caller names the
 group, and the model keeps only what the filter does once it is there.
 */
module FilteredReceiver {
  import opened Wrappers
  import opened CanFrame
  import opened CanFilter

  /** A filter enabled in a slot of `group`. */
  datatype Installed = Installed(group: FilterGroup, filter: Filter)

  datatype Receiver = Receiver(installed: seq<Installed>)

  /** `add_filter` refuses a filter the group cannot hold. */
  datatype AddFilterError = ExtendedNotSupported

  /** Some enabled filter passes `frame`. */
  predicate Admits(rx: Receiver, frame: Frame)
  {
    exists k :: 0 <= k < |rx.installed| &&
      Matches(rx.installed[k].group, rx.installed[k].filter, frame.id, frame.remote)
  }

  /** `clear_filters`: afterwards no frame is admitted. */
  function ClearFilters(rx: Receiver): (r: Receiver)
    ensures forall frame: Frame :: !Admits(r, frame)
  {
    Receiver([])
  }

  /** `add_filter`: enables `f` in a slot of group `g`. A filter on an
      extended identifier cannot go into a group without extended support;
      otherwise the receiver admits from now on exactly what it admitted
      before plus what `f` passes in `g`. */
  function AddFilter(rx: Receiver, g: FilterGroup, f: Filter): (r: Result<Receiver, AddFilterError>)
    ensures r.Failure? <==> f.id.Some? && !FormatSupported(g, f.id.value)
    ensures r.Success? ==> forall frame: Frame ::
      Admits(r.value, frame) ==> Admits(rx, frame) || Matches(g, f, frame.id, frame.remote)
    ensures r.Success? ==> forall frame: Frame ::
      Admits(rx, frame) || Matches(g, f, frame.id, frame.remote) ==> Admits(r.value, frame)
  {
    if f.id.Some? && !FormatSupported(g, f.id.value) then Failure(ExtendedNotSupported)
    else
      var r := Receiver(rx.installed + [Installed(g, f)]);
      assert forall frame: Frame :: Matches(g, f, frame.id, frame.remote) ==> Admits(r, frame) by {
        forall frame: Frame | Matches(g, f, frame.id, frame.remote)
          ensures Admits(r, frame)
        {
          assert r.installed[|rx.installed|] == Installed(g, f);
        }
      }
      assert forall frame: Frame :: Admits(rx, frame) ==> Admits(r, frame) by {
        forall frame: Frame | Admits(rx, frame)
          ensures Admits(r, frame)
        {
          var k :| 0 <= k < |rx.installed| &&
            Matches(rx.installed[k].group, rx.installed[k].filter, frame.id, frame.remote);
          assert r.installed[k] == rx.installed[k];
        }
      }
      Success(r)
  }

  /** The frames of `arrivals` that reach `receive`: those some enabled
      filter admits, and no others. Order and repetitions are kept, as
      `DeliveredDistributes` and `DeliveredSingle` state. */
  function Delivered(rx: Receiver, arrivals: seq<Frame>): (r: seq<Frame>)
    ensures |r| <= |arrivals|
    ensures forall frame :: frame in r ==> frame in arrivals && Admits(rx, frame)
    ensures forall frame :: frame in arrivals && Admits(rx, frame) ==> frame in r
  {
    if arrivals == [] then []
    else
      var rest := Delivered(rx, arrivals[1..]);
      assert forall frame :: frame in arrivals <==> frame == arrivals[0] || frame in arrivals[1..];
      if Admits(rx, arrivals[0]) then [arrivals[0]] + rest else rest
  }

  /** Filtering keeps arrival order and multiplicity: the frames delivered
      from two consecutive stretches of traffic are those of the first
      stretch followed by those of the second. */
  lemma {:induction false} DeliveredDistributes(rx: Receiver, first: seq<Frame>, second: seq<Frame>)
    ensures Delivered(rx, first + second) == Delivered(rx, first) + Delivered(rx, second)
    decreases |first|
  {
    if first == [] {
      assert first + second == second;
    } else {
      assert (first + second)[1..] == first[1..] + second;
      DeliveredDistributes(rx, first[1..], second);
    }
  }

  /** A single arrival is delivered exactly when some enabled filter admits it. */
  lemma DeliveredSingle(rx: Receiver, frame: Frame)
    ensures Delivered(rx, [frame]) == (if Admits(rx, frame) then [frame] else [])
  {
  }

  /** After `clear_filters` no frame is received, and once one filter is
      added again exactly the frames that filter passes are admitted. */
  lemma ClearDeniesUntilAdd(rx: Receiver, arrivals: seq<Frame>, g: FilterGroup, f: Filter, frame: Frame)
    ensures Delivered(ClearFilters(rx), arrivals) == []
    ensures AddFilter(ClearFilters(rx), g, f).Success? ==>
      (Admits(AddFilter(ClearFilters(rx), g, f).value, frame) <==> Matches(g, f, frame.id, frame.remote))
  {
  }
}
