/**
 Properties of the filter configuration calls that relate several calls or
 several groups: the mask example of `with_mask`, last-write-wins masks, the
 per-behaviour effects of the remote-frame calls, and `accept_all` as the
 widest filter.
 */
module FilterProperties {
  import opened Bits
  import opened CanId
  import opened CanFilter

  /** In a group with masks, a masked filter passes an identifier of the same
      format exactly when the identifier agrees with the filter identifier on
      every bit set in the mask. */
  lemma MaskedFilterIsBitwise(g: FilterGroup, fid: Id, mask: u32, rid: Id)
    requires g.mask.Some? && FormatSupported(g, rid) && fid.Standard? == rid.Standard?
    ensures IdMatches(g, WithMask(New(fid), mask), rid) ==>
            forall i: nat :: i < 32 ==> BitAgrees(fid.value, mask, rid.value, i)
    ensures (forall i: nat :: i < 32 ==> BitAgrees(fid.value, mask, rid.value, i)) ==>
            IdMatches(g, WithMask(New(fid), mask), rid)
  {
    MaskedEqualIsBitwise(fid.value, mask, rid.value);
  }

  /** The example in the doc comment of `with_mask`: filter id 0b100110111
      (0x137) with mask 0b000001111 (0xF) rejects 0b100110011 (0x133) and
      accepts 0b000000111 (0x7). */
  lemma WithMaskDocExample(g: FilterGroup)
    requires g.mask.Some?
    ensures !IdMatches(g, WithMask(New(Standard(0x137)), 0xF), Standard(0x133))
    ensures IdMatches(g, WithMask(New(Standard(0x137)), 0xF), Standard(0x7))
  {
    assert And(0x137, 0xF) == 7;
    assert And(0x133, 0xF) == 3;
    assert And(0x7, 0xF) == 7;
  }

  /** The rejected id of that example differs from the filter id, among the
      masked bits, at bit 2 (counting from 0) and nowhere else. */
  lemma DocExampleDiffersAtBitTwo(i: nat)
    ensures Bit(0xF, i) && Bit(0x137, i) != Bit(0x133, i) <==> i == 2
  {
    if i >= 3 {
      assert Bit(0x137, i) == Bit(38, i - 3) by {
        assert Bit(0x137, i) == Bit(155, i - 1) == Bit(77, i - 2);
      }
      assert Bit(0x133, i) == Bit(38, i - 3) by {
        assert Bit(0x133, i) == Bit(153, i - 1) == Bit(76, i - 2);
      }
    }
  }

  /** `with_mask` called twice keeps only the last mask. */
  lemma WithMaskLastWriteWins(f: Filter, first: u32, second: u32)
    ensures WithMask(WithMask(f, first), second) == WithMask(f, second)
  {
  }

  /** An all-ones mask behaves as no mask. In a group with masks a zero mask
      compares no value bit, only the identifier format; in a group without
      masks the mask is ignored and only the filter identifier passes. */
  lemma ExtremeMasks(g: FilterGroup, fid: Id, rid: Id)
    ensures IdMatches(g, WithMask(New(fid), 0xFFFF_FFFF), rid) == IdMatches(g, New(fid), rid)
    ensures IdMatches(g, WithMask(New(fid), 0), rid) <==>
            FormatSupported(g, rid) && (g.mask.None? ==> rid == fid) && fid.Standard? == rid.Standard?
  {
    FullMaskIsExact(fid.value, rid.value);
    ZeroMaskAcceptsAll(fid.value, rid.value);
  }

  /** The documented no-ops: in the three fixed-behaviour groups neither
      remote-frame call changes a filter, and in a group that can choose only
      between data and remote frames `allow_remote` does nothing. */
  lemma RemoteCallsNoOps(b: RtrFilterBehavior, f: Filter)
    ensures b == RemoteAlwaysAllowed || b == OnlyData || b == OnlyRemote ==>
      AllowRemote(b, f) == f && RemoteOnly(b, f) == f
    ensures b == ConfigurableEitherDataOrRemote ==> AllowRemote(b, f) == f
  {
  }

  /** Each remote-frame call settles the frame kinds a filter passes: calling
      it again changes nothing. */
  lemma RemoteCallsIdempotent(b: RtrFilterBehavior, f: Filter)
    ensures AllowRemote(b, AllowRemote(b, f)) == AllowRemote(b, f)
    ensures RemoteOnly(b, RemoteOnly(b, f)) == RemoteOnly(b, f)
  {
  }

  /** What the three fixed behaviours mean for every filter: whatever the
      filter's RTR settings, an `OnlyData` group passes exactly the data
      frames with a matching identifier, an `OnlyRemote` group exactly the
      remote frames, and a `RemoteAlwaysAllowed` group frames of both kinds. */
  lemma FixedBehaviours(g: FilterGroup, f: Filter, id: Id, remote: bool)
    ensures g.rtr == OnlyData ==> (Matches(g, f, id, remote) <==> !remote && IdMatches(g, f, id))
    ensures g.rtr == OnlyRemote ==> (Matches(g, f, id, remote) <==> remote && IdMatches(g, f, id))
    ensures g.rtr == RemoteAlwaysAllowed ==> (Matches(g, f, id, remote) <==> IdMatches(g, f, id))
  {
  }

  /** The RTR comparison of a `Configurable` group if the RTR bit of the mask
      had the identifier mask's polarity (set = compare). */
  predicate KindMatchesMaskCompares(f: Filter, remote: bool)
  {
    f.rtrMask ==> remote == f.rtr
  }

  /** `allow_remote` as its register action is worded: set the RTR bit in
      the filter mask. */
  function AllowRemoteAsWorded(f: Filter): Filter
  {
    f.(rtrMask := true)
  }

  /** `remote_only` as its register action is worded: set the RTR bit in the
      filter and clear it in the mask. */
  function RemoteOnlyAsWorded(f: Filter): Filter
  {
    f.(rtr := true, rtrMask := false)
  }

  /** Read with the identifier mask's polarity, the worded register actions
      give the opposite of the documented effects: after `allow_remote` a
      filter passes only one frame kind, and after `remote_only` it still
      passes data frames. `CanFilter.AllowRemote` and `CanFilter.RemoteOnly`
      therefore follow the effects, with the RTR mask bit inverted. */
  lemma RtrMaskWordingInverted(f: Filter)
    ensures !(KindMatchesMaskCompares(AllowRemoteAsWorded(f), true) &&
              KindMatchesMaskCompares(AllowRemoteAsWorded(f), false))
    ensures KindMatchesMaskCompares(RemoteOnlyAsWorded(f), false)
    ensures KindMatchesMaskCompares(RemoteOnlyAsWorded(f), true)
  {
  }

  /** `accept_all` compares no identifier, so a mask applied to it changes
      nothing: it still passes every identifier the group can receive. */
  lemma AcceptAllIgnoresMask(g: FilterGroup, m: u32, id: Id)
    ensures IdMatches(g, WithMask(AcceptAll(), m), id) <==> FormatSupported(g, id)
  {
  }

  /** `accept_all` passes every frame any filter passes in the same group,
      except in an either-data-or-remote group, where one filter cannot pass
      both kinds and `accept_all` keeps to data frames. */
  lemma AcceptAllIsWidest(g: FilterGroup, f: Filter, id: Id, remote: bool)
    ensures g.rtr != ConfigurableEitherDataOrRemote && Matches(g, f, id, remote) ==>
            Matches(g, AcceptAll(), id, remote)
    ensures g.rtr == ConfigurableEitherDataOrRemote ==>
            (Matches(g, AcceptAll(), id, remote) <==> FormatSupported(g, id) && !remote)
  {
  }
}
