/**
 Receive filters and filter-group capabilities (`MaskType`,
 `RtrFilterBehavior`, `FilterGroup` and `Filter` in src/can.rs).

 A `Filter` is the configuration a driver installs: an identifier to compare
 (absent for `accept_all`), an optional identifier mask, the RTR bit of the
 filter and the RTR bit of the mask. Which of these a controller honours is
 described by the `FilterGroup` the filter lands in, so acceptance
 (`Matches`) is evaluated against a group.

 Polarity. An identifier mask bit that is SET means "compare this bit": in
 the `with_mask` example an id that differs from the filter id on a masked
 bit is rejected. The RTR bit of the mask is documented only through its
 effect: `allow_remote` sets it so that data and remote frames both pass,
 and `remote_only` clears it (while setting the filter's RTR bit) so that
 only remote frames pass. So a set `rtrMask` here means "RTR is not
 compared", the opposite polarity to the identifier mask; the model follows
 the documented effects.
 */
module CanFilter {
  import opened Wrappers
  import opened Bits
  import opened CanId

  /** How the filters of a group get their masks. */
  datatype MaskType = Individual | Shared

  /** What a group's hardware can do with the RTR (remote frame) bit. */
  datatype RtrFilterBehavior =
    | Configurable
    | ConfigurableEitherDataOrRemote
    | RemoteAlwaysAllowed
    | OnlyData
    | OnlyRemote

  /** A block of `numFilters` consecutive filter slots with the same
      capabilities: extended-identifier support, mask support (`None` when
      the group has no masks) and remote-frame behaviour. */
  datatype FilterGroup = FilterGroup(numFilters: nat, extended: bool, mask: Option<MaskType>, rtr: RtrFilterBehavior)

  datatype Filter = Filter(id: Option<Id>, mask: Option<u32>, rtr: bool, rtrMask: bool)

  /** The group can receive frames with this identifier format at all. */
  predicate FormatSupported(g: FilterGroup, id: Id)
  {
    id.Extended? ==> g.extended
  }

  /** The identifier mask the hardware applies: none when the group has no
      mask support, whatever the filter was configured with. */
  function EffectiveMask(g: FilterGroup, f: Filter): Option<u32>
  {
    if g.mask.None? then None else f.mask
  }

  /** Identifier part of acceptance. A filter with an identifier compares
      the format (standard or extended) and the value, the value on the
      masked bits only when a mask is in effect. */
  predicate IdMatches(g: FilterGroup, f: Filter, id: Id)
  {
    && FormatSupported(g, id)
    && match f.id
       case None => true
       case Some(fid) =>
         && fid.Standard? == id.Standard?
         && match EffectiveMask(g, f)
            case None => fid.value == id.value
            case Some(m) => MaskedEqual(fid.value, m, id.value)
  }

  /** Frame-kind part of acceptance, per the group's RTR behaviour. */
  predicate KindMatches(b: RtrFilterBehavior, f: Filter, remote: bool)
  {
    match b
    case Configurable => f.rtrMask || remote == f.rtr
    case ConfigurableEitherDataOrRemote => remote == f.rtr
    case RemoteAlwaysAllowed => true
    case OnlyData => !remote
    case OnlyRemote => remote
  }

  /** A frame with identifier `id` (remote when `remote`) passes filter `f`
      installed in group `g`. */
  predicate Matches(g: FilterGroup, f: Filter, id: Id, remote: bool)
  {
    IdMatches(g, f, id) && KindMatches(g.rtr, f, remote)
  }

  /** Groups whose hardware lets one filter pass both data and remote frames. */
  predicate PassesBothKinds(b: RtrFilterBehavior)
  {
    b == Configurable || b == RemoteAlwaysAllowed
  }

  /** `Filter::accept_all`: no identifier is compared and the RTR bit is
      masked out, so every frame the group can receive passes. */
  function AcceptAll(): (r: Filter)
    ensures forall g: FilterGroup, id: Id :: IdMatches(g, r, id) == FormatSupported(g, id)
    ensures forall g: FilterGroup, id: Id, remote: bool ::
      PassesBothKinds(g.rtr) && FormatSupported(g, id) ==> Matches(g, r, id, remote)
  {
    Filter(None, None, false, true)
  }

  /** `Filter::new`: accepts data frames with exactly identifier `id`
      (format and value); with no mask set, every bit is compared. */
  function New(id: Id): (r: Filter)
    ensures forall g: FilterGroup, rid: Id ::
      FormatSupported(g, rid) ==> (IdMatches(g, r, rid) <==> rid == id)
    ensures forall g: FilterGroup, rid: Id ::
      g.rtr == Configurable || g.rtr == ConfigurableEitherDataOrRemote ==> !Matches(g, r, rid, true)
  {
    Filter(Some(id), None, false, false)
  }

  /** `Filter::with_mask`: replaces the identifier mask and nothing else. */
  function WithMask(f: Filter, mask: u32): (r: Filter)
    ensures r.mask == Some(mask)
    ensures r.id == f.id && r.rtr == f.rtr && r.rtrMask == f.rtrMask
    ensures forall g: FilterGroup, remote: bool :: KindMatches(g.rtr, r, remote) == KindMatches(g.rtr, f, remote)
  {
    f.(mask := Some(mask))
  }

  /** `Filter::allow_remote`: only a `Configurable` group has an RTR mask
      bit to set; there the filter then passes data and remote frames alike
      with the identifiers it passed before. Everywhere else it is a no-op. */
  function AllowRemote(b: RtrFilterBehavior, f: Filter): (r: Filter)
    ensures b != Configurable ==> r == f
    ensures forall g: FilterGroup, id: Id :: IdMatches(g, r, id) == IdMatches(g, f, id)
    ensures b == Configurable ==>
      forall g: FilterGroup, id: Id, remote: bool :: g.rtr == b ==> (Matches(g, r, id, remote) <==> IdMatches(g, f, id))
  {
    if b == Configurable then f.(rtrMask := true) else f
  }

  /** `Filter::remote_only`: sets the RTR bit of the filter and, where the
      group has one, clears the RTR bit of the mask. In the two configurable
      groups the filter then passes only remote frames, with the identifiers
      it passed before; in the other three groups it is a no-op. */
  function RemoteOnly(b: RtrFilterBehavior, f: Filter): (r: Filter)
    ensures b != Configurable && b != ConfigurableEitherDataOrRemote ==> r == f
    ensures forall g: FilterGroup, id: Id :: IdMatches(g, r, id) == IdMatches(g, f, id)
    ensures b == Configurable || b == ConfigurableEitherDataOrRemote ==>
      forall g: FilterGroup, id: Id, remote: bool :: g.rtr == b ==> (Matches(g, r, id, remote) <==> remote && IdMatches(g, f, id))
  {
    match b
    case Configurable => f.(rtr := true, rtrMask := false)
    case ConfigurableEitherDataOrRemote => f.(rtr := true)
    case _ => f
  }
}
