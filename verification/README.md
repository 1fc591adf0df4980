# CAN interface contracts (embedded-hal `can` module) in Dafny

This project models `src/can.rs` of the embedded-hal CAN proposal. That file
sets out the abstract interface a Controller Area Network driver implements.
It has one concrete function, `Id::valid`, and two provided trait methods,
`Frame::is_standard` and `Frame::is_data_frame`. Everything else is a set of
trait contracts written as doc comments: how frames are constructed, how
identifier masks match, what the remote-frame configuration calls do for each
class of filter hardware, and that `clear_filters` denies every frame.

The model gives each of these one reference realisation and proves its
contracts:

- `bits.dfy` (`Bits`): Rust `u32` as an integer subset type. Bitwise AND
  (`And`) is defined arithmetically and bit reading (`Bit`) recursively. The
  mask rule `(F & M) == (R & M)` is `MaskedEqual`, and it is proved
  equivalent to the rule read bit by bit.
- `id.dfy` (`CanId`): the `Id` enum and `Id::valid`.
- `frame.dfy` (`CanFrame`): a reference `Frame` (identifier, RTR flag, DLC,
  payload). `New` and `NewRemote` return a `Result`, and `WellFormed` is the
  invariant the `dlc()`/`data()` doc comments promise.
- `filter.dfy` (`CanFilter`): `MaskType`, `RtrFilterBehavior`, the
  `FilterGroup` descriptor and a `Filter` record. The record holds the
  identifier (absent for `accept_all`), an optional mask, the RTR bit and the
  RTR mask bit. `Matches(group, filter, id, remote)` decides acceptance. The
  configuration calls are `AcceptAll`, `New`, `WithMask`, `AllowRemote` and
  `RemoteOnly`, the last two parameterised by the group's behaviour.
- `filter_properties.dfy` (`FilterProperties`): lemmas that relate several
  calls or several behaviours.
- `receiver.dfy` (`FilteredReceiver`): the set of enabled filters, with
  `AddFilter`, `ClearFilters`, `Admits`, and `Delivered`, the frames of an
  arrival sequence that pass the filters.
- `wrappers.dfy` (`Wrappers`): `Option` and `Result`.

Modelling decisions:

- Identifier mask polarity. A set identifier mask bit means "compare this
  bit". This follows the `with_mask` example, where an id that differs on a
  masked bit is rejected. The RTR mask bit is described only by its effect:
  `allow_remote` sets it to accept data and remote frames, and `remote_only`
  clears it to accept only remote frames. So a set `rtrMask` means "RTR not
  compared", the opposite polarity. The model follows the documented effects.
  Read with the identifier polarity, the register actions as worded would do
  the opposite of those effects; this is listed under "## Findings".
- The `with_mask` example says the rejected id fails at "bit 3". The bit
  that differs among the masked bits is bit 2, counting from 0.
  `DocExampleDiffersAtBitTwo` proves this. The model uses the mask rule, not
  the comment's bit index.
- The doc comments of `OnlyData` and `OnlyRemote` are word for word the
  same and do not say which frame kind each admits. The model follows the
  variant names: an `OnlyData` group passes only data frames and an
  `OnlyRemote` group only remote frames.
- `dlc()` is documented as "in the range 0..8". CAN 2.0 allows a DLC of 8,
  and `new` fails only when the payload is too long, so the model allows
  0 to 8 inclusive.
- `Filter::new(id)` sets no mask. With no mask, every bit is compared, and the
  identifier format (standard or extended) must match too.
- A group whose `mask()` is `None` has no mask hardware. A mask configured on
  a filter in such a group is ignored (`EffectiveMask`). The RTR bit of the
  mask is not affected: a `Configurable` group has its RTR bit "part of the
  filter and the mask" whatever `mask()` says, so `allow_remote` still lets
  such a group pass both frame kinds.
- `accept_all` compares no identifier, so a mask applied to it with
  `with_mask` has no effect: it still passes every identifier the group can
  receive (`AcceptAllIgnoresMask`). The source leaves this combination
  open; a driver that realises `accept_all` as identifier 0 with mask 0
  would instead, after `with_mask(m)`, pass only identifiers `R` with
  `R & m == 0`.
- A frame with an extended identifier never passes a filter in a group
  without extended support. `AddFilter` refuses a filter on an extended
  identifier for such a group, as `FilterGroup::extended` implies.

## Model

| member | source | states |
|---|---|---|
| Bits.And | src/can.rs:144-155 | the `&` used by the mask rule never exceeds either operand, so masking a `u32` gives a `u32` |
| Bits.AndBit | src/can.rs:144-155 | `&` is bitwise: bit i of `a & b` is set iff bit i is set in both `a` and `b` |
| Bits.MaskedEqualIsBitwise | src/can.rs:144-155 | `(F & M) == (R & M)` holds iff, at each of the 32 bit positions set in M, F and R have the same bit (both directions) |
| Bits.FullMaskIsExact | src/can.rs:144-155 | with the all-ones mask, an id passes iff it equals the filter id |
| Bits.ZeroMaskAcceptsAll | src/can.rs:144-155 | with the zero mask, every id passes the mask rule |
| CanId.ValidIffFitsWidth | src/can.rs:5-21 | `Id::valid` holds iff no bit at or above the variant's width (11 for standard, 29 for extended) is set, in both directions |
| CanId.TagIsIdentity | src/can.rs:4-11 | a standard and an extended id are never equal; two ids are equal iff they have the same variant and the same value |
| CanFrame.New | src/can.rs:26-28 | fails iff the id is invalid or the payload is longer than 8 bytes; on success it gives a well-formed data frame with that id and payload, and a DLC equal to the payload length |
| CanFrame.NewRemote | src/can.rs:30-32 | fails iff the id is invalid or the DLC is above 8; on success it gives a well-formed remote frame with that id and DLC and an empty payload |
| CanFrame.ConstructorsReachWellFormed | src/can.rs:53-60 | every frame meeting the DLC/data invariant is rebuilt exactly by the constructor of its kind, and every frame a constructor returns meets the invariant |
| CanFrame.KindPredicatesComplementary | src/can.rs:34-48 | `is_standard` is the complement of `is_extended` and reads the id's variant; `is_data_frame` is the complement of `is_remote_frame` |
| CanFilter.AcceptAll | src/can.rs:138-139 | passes every identifier the group can receive; in groups that can pass both kinds, it passes every frame |
| CanFilter.New | src/can.rs:141-142 | passes exactly the given identifier (variant and value); in the configurable groups it passes no remote frame |
| CanFilter.WithMask | src/can.rs:144-155 | installs the mask and changes nothing else, so the accepted frame kinds stay the same |
| CanFilter.AllowRemote | src/can.rs:157-161 | in a `Configurable` group the filter then passes data and remote frames with the ids it passed before; in any other group the call is a no-op; it never changes which ids pass |
| CanFilter.RemoteOnly | src/can.rs:163-168 | in the two configurable groups the filter then passes only remote frames with the ids it passed before; in the other three groups it is a no-op |
| FilterProperties.MaskedFilterIsBitwise | src/can.rs:144-155 | in a group with masks, `new(id).with_mask(m)` passes a same-format id iff the two ids agree on every bit set in m |
| FilterProperties.WithMaskDocExample | src/can.rs:146-154 | filter id 0b100110111 with mask 0b1111 rejects 0b100110011 and accepts 0b000000111 |
| FilterProperties.DocExampleDiffersAtBitTwo | src/can.rs:151-152 | in that example the rejected id differs from the filter id on a masked bit only at bit 2 |
| FilterProperties.WithMaskLastWriteWins | src/can.rs:155 | calling `with_mask` twice leaves the last mask in effect |
| FilterProperties.ExtremeMasks | src/can.rs:144-155 | an all-ones mask acts like no mask; in a group with masks, a zero mask passes every id of the filter's format that the group supports; in a group without masks the mask is ignored and only the filter id passes |
| FilterProperties.RemoteCallsNoOps | src/can.rs:98-117 | in `RemoteAlwaysAllowed`, `OnlyData` and `OnlyRemote` groups, `allow_remote` and `remote_only` leave the filter unchanged; in an either-data-or-remote group, `allow_remote` does too |
| FilterProperties.RemoteCallsIdempotent | src/can.rs:157-168 | repeating `allow_remote` or `remote_only` changes nothing further |
| FilterProperties.FixedBehaviours | src/can.rs:104-117 | whatever the filter's RTR settings, an `OnlyData` group passes exactly the data frames with a matching identifier, an `OnlyRemote` group exactly the remote frames with a matching identifier, and a `RemoteAlwaysAllowed` group data and remote frames with a matching identifier |
| FilterProperties.AcceptAllIsWidest | src/can.rs:138-139 | outside either-data-or-remote groups, `accept_all` passes every frame any filter passes; inside one, it passes exactly the data frames the group can receive |
| FilterProperties.AcceptAllIgnoresMask | src/can.rs:138-155 | a mask applied to `accept_all` changes nothing: it still passes exactly the identifiers the group can receive |
| FilteredReceiver.ClearFilters | src/can.rs:188-189 | after `clear_filters` no frame is admitted |
| FilteredReceiver.AddFilter | src/can.rs:185-186 | fails iff an extended-id filter goes to a group without extended support; otherwise afterwards a frame is admitted iff it was admitted before or the new filter passes it |
| FilteredReceiver.Delivered | src/can.rs:171-189 | the frames that reach `receive` are exactly the arrived frames some enabled filter admits |
| FilteredReceiver.DeliveredDistributes | src/can.rs:185-189 | filtering keeps arrival order and repetitions: the frames delivered from two consecutive stretches of traffic are those of the first followed by those of the second |
| FilteredReceiver.DeliveredSingle | src/can.rs:185-189 | one arriving frame is delivered iff some enabled filter admits it |
| FilterProperties.RtrMaskWordingInverted | src/can.rs:157-168 | if the RTR mask bit had the identifier mask's polarity, the worded `allow_remote` would never pass both kinds and the worded `remote_only` would still pass data frames |
| FilteredReceiver.ClearDeniesUntilAdd | src/can.rs:185-189 | after `clear_filters` nothing is received; once one filter is added, exactly the frames that filter passes are admitted |

## Left out

- `Can::transmit` and `Can::receive` buffering is not modelled: evicting a
  lower-priority frame when the buffer is full, FIFO order among frames with
  equal identifiers, and the `nb` would-block result. The source states these
  only as duties of a driver, with no data structure or priority rule of its
  own. `Delivered` models only which frames the filters let through.
- `CanFilter.AcceptAll`: passes every frame only in `Configurable` and
  `RemoteAlwaysAllowed` groups. An either-data-or-remote group always
  compares the RTR bit, so no single filter there can pass both kinds;
  `accept_all` keeps the default of `new` and passes only data frames. In an
  `OnlyData` or `OnlyRemote` group it passes only that group's frame kind,
  because the hardware admits no other.
- `FilteredReceiver::filter_groups` and its `IntoIterator` associated type are
  left out. They are trait plumbing with no behaviour.
- `FilteredReceiver.AddFilter`: slot allocation is not modelled. That covers
  `num_filters` capacity and the driver's other error cases. The driver
  defines these, and the only refusal modelled is an extended-id filter in a
  group without extended support.
- `MaskType::Shared` is not modelled: a mask shared across the slots of a
  group would change other filters' masks. The hardware defines that effect,
  so each installed filter keeps its own mask.
- The associated `Error` types are not modelled. The error of `Frame::new`
  and `new_remote` is the source's unit type `()`, and the model has no
  register or hardware access.
- Rust's trait polymorphism is not modelled. `Frame` and `Filter` are
  traits that each driver implements; the model gives one reference
  representation of each, and the contracts are stated about it.

## Findings

| source | as written | input that shows it | evidently intended | confidence | as-written member | corrected member |
|---|---|---|---|---|---|---|
| src/can.rs:157-168 | `allow_remote` "sets the RTR bit in the filter mask" and `remote_only` "clears it in the mask", while the `with_mask` example (src/can.rs:144-155) fixes a set mask bit to mean "compare" | any filter in a `Configurable` group: after the worded `allow_remote` the RTR bit is compared, so only one frame kind passes; after the worded `remote_only` it is not compared, so data frames still pass | `allow_remote` passes data and remote frames and `remote_only` passes only remote frames, so the RTR mask bit works with the inverse polarity | medium, not executed | FilterProperties.RtrMaskWordingInverted | CanFilter.AllowRemote, CanFilter.RemoteOnly |
