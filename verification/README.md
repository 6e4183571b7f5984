# Sweetcomb, modelled and proved in Dafny

Sweetcomb turns YANG configuration changes, delivered by sysrepo, into objects of a local database (the OM of the
VOM library) that mirrors the VPP data plane. This project models the parts of it that carry state, and proves what
they guarantee over every input and every run, and exactly where they do not.

| files | what they model |
|---|---|
| `Decimal`, `Prefix`, `Netmask` | decimal, dotted-quad and prefix text, `stoi`, the netmask loop (`src/plugins/sys_util.cpp`, `src/plugins/sys_util.h`) |
| `ObjectModel` | the object database, its keys and the text of the keys |
| `AddressChange`, `AddressBatch`, `AddressEffects` | the address callback: its loop, the exact effect of a batch entry by entry, its return code |
| `AddressOrder`, `AddressNodes`, `AddressIntent` | batches of any shape, the carried variables read off the nodes, what a batch asks for, and exactly when it is done |
| `NatMapping`, `NatEntries` | the NAT mapping callback, its builder and its table; batches of mapping entries |
| `InterfaceConfig` | the IETF and OpenConfig interface callbacks, and their comparison |
| `Transactions` | which sysrepo deliveries take effect |
| `RegistryCalls`, `Registry` | calling registered init functions, and the linked list on the heap |
| `Recovery` | start-up, crashes and health checks as a step system |
| `System` | all of it together: the end-to-end theorem |

## Main results

- `System.EndToEnd`: in every run of address, NAT and interface commits, crashes, restarts and health-check steps after
  an undisturbed start-up, every configured address is bound in the database, under the length it asks for where that is
  a number or a netmask of whole octets, and the NAT table agrees with it, both in the database keyed by values and in the
  one keyed by the strings of the code, and in VPP itself whenever the recorded pid is the live one and no check is
  reconnecting.
- `AddressOrder.LastTouchDecides`: the exact effect of every batch of address changes whatsoever, modifications, moves,
  missing names, refused writes and one address on both sides included: key by key, the last change that touches it decides.
  `AddressNodes.LastNodesDecide` and `CodeOfAnyBatch` say the same, and the code returned, by the nodes of the changes alone.
- `AddressBatch.MixedBatchExact` and `AddressEffects.MixedBatchByEntries`: the whole effect of a batch on the database,
  with any writes refused, despite the flags, addresses and lengths that the loop carries from change to change. From it
  follow what holds where no address is both created and deleted: created bindings present, deleted ones absent, others
  untouched, create and delete cancel.
- `AddressIntent.IntendedIff` and `IntendedIffHarmless`: exactly when the callback does just what a batch asks for, where
  the prefix length a netmask asks for is defined apart from the code's conversion.
- `NatEntries.EntriesExact` and `AppliedAsAskedIff`: the exact table after any batch of mapping entries with any of their
  leaves, and exactly when it is the one asked for by the pairs the source calls valid.
- `NatMapping.CallExact`, `InterfaceConfig.IetfExact` and `OcExact`: code, commands and new state of these callbacks for
  every batch, by tests on the batch; `System.CommitIsDelivery` ties the commits of a run to them.
- `RegistryCalls.DependenciesFirstIffAcyclic`: dependencies run first exactly when they are acyclic; termination and
  at-most-once hold in any case.
- `Recovery.RecordedPidMeansInSync` and `Recovery.SteadyChecksConverge`: the recorded pid can be trusted in every run, and
  every interrupted recovery is completed by the next check, with commits between any two steps.

Properties one would expect and that fail of the code, each with the exact condition under which it holds:

| expected | holds exactly when | lemma |
|---|---|---|
| a netmask gives its prefix length | the length is a multiple of 8 | `Netmask.PrefixLengthExactAtOctets` |
| an address with a netmask is bound under the netmask's length | the length is a multiple of 8 | `AddressIntent.AlwaysBoundIffOnBoundary` |
| an address batch does just what it asks for | on each key its entries concern, the last thing done has the effect of the last thing asked; where no address is on both sides: entry by entry, what is done under the previous length, under the derived length and to the last address of the other kind is asked for or changes nothing, and what is asked for is done | `AddressIntent.IntendedIff`, `IntendedIffHarmless`, for one interface `OneInterfaceIntendedIff` |
| a deletion removes its binding | every entry that binds the key, the deletion itself included, is followed by one that removes it | `AddressOrder.DeletionTakesEffectIff` |
| success of an address batch means every entry took effect | the last action fails, or every entry asks for a binding whose key the last entry to touch it leaves as asked | `AddressIntent.SuccessHonestIff` |
| a NAT batch applies all its entries | it is empty, or one deletion, or creations of which only the last may ask for a valid pair and the last type and source addresses of the whole batch give just that pair, or a refusal where none is asked for | `NatEntries.AppliedAsAskedIff` |
| one NAT entry is applied as asked | it is a deletion, or not static, or its source addresses, 0.0.0.0 for a missing one, are the pair it asks for and the write is accepted, or it asks for no valid pair and the write is refused | `NatEntries.SingleEntryAsAskedIff` |
| an interface does not share its key with another object | its name is no numeral and does not read and print back as a binding's key | `ObjectModel.NameCollidesIffNotPlain`, for NAT `NatMapping.InterfaceWriteSafeIffNotIndex` |
| all an interface batch puts in the database reaches VPP | every interface whose state it set before the loop ended, other than the one finally written, already had that state | `InterfaceConfig.AllSentIff` |
| both interface callbacks do the same on paths that carry an interface name | no deletion is reached before a change that ends the loop | `InterfaceConfig.CallbacksAgreeIffNoDeletion` |
| the recorded pid can be trusted after a pid lookup | the lookup is not an error | `Recovery.TrustworthyIffNoError` |
| start-up leaves VPP and database in step | VPP was not replaced between connecting and reading its pid | `Recovery.StartupSafeIffUndisturbed` |
| ABORT gives back the state before VERIFY | the request is idle: each binding it touches last is bound as before or absent as before, its mapping is already there or already gone and no prefix is bad, no interface is moved, created differently or removed | `Transactions.AbortRestoresIffIdle` |
| two texts of one address are two entries | the length of the one that stays is neither that of the deleted one nor 0 | `System.TwoTextsOneBinding` |

## Modelling choices

- The database is a map. `OM::write` either succeeds and replaces the object of its key or fails and changes nothing;
  `OM::remove` drops the key. Whether a write succeeds is an input (`accepted`). `interface::find` looks for the
  interface in the database. Commands are recorded in the order they are issued, because VPP receives the same ones.
- Keys are values (`Key`); `KeyText` is the string the code builds. `ObjectModel.TextRefines` carries
  commands over to the database keyed by strings, and `System` keeps both through every run.
- An address is its canonical text. A `Notation` maps an accepted text to the canonical one; the theorems hold for every
  lawful notation, IPv4 is modelled in full and proved lawful, and IPv6 may be any lawful notation whose texts contain
  a colon.
- The netmask is read as on a little-endian host: the first octet is the lowest byte.
- Flags the code leaves uninitialised (`src/plugins/ietf/ietf_interface.cpp:109`, `src/plugins/ietf/ietf_nat.cpp:164`,
  `src/plugins/openconfig/openconfig_interfaces.cpp:95`) start at false; the builder's admin state and the length of a
  default prefix start at an arbitrary value (`garbage`).
- The code is followed where it differs from its comments: `prefix::empty` is never true, the mask loop rounds up to
  octets, an `ip` change is bound under the previous length before its own length arrives, and a lone modification of a
  length is ignored.
- An exception that leaves a callback, and the dereference of a missing value, are outcomes of their own (`Exception`,
  `Crash`).
- A commit reaches VPP only over a connection to the process that is running; `OM::replay` makes VPP's configuration
  equal to the database, as src/plugins/sc_plugins.c:183-186 says it does; a restarted VPP is empty and has a new pid.
- A configured address is known by its canonical text; an entry may give it in any text. What a netmask asks for is the
  prefix length of a contiguous mask (`Netmask.PrefixOfMask`); a mask with holes asks for nothing. The code computes the
  length rounded up to whole octets, and that is what it binds.
- A NAT entry asks for a pair as src/plugins/ietf/ietf_nat.cpp:74-82 declares it valid: the source addresses, else the
  destination addresses, of one family. Anything else asks for nothing.
- In `System` a NAT callback that throws issues no command and the run goes on, so the runs include all those in which
  the plugin survives; `Transactions` counts the exception as a crash.
- An init function is given by the dependencies it calls first, whether it gives up when one fails, and its own code.

## Model

| member | source | states |
|---|---|---|
| `Decimal.ValueOfPrint` | src/plugins/ietf/ietf_nat.cpp:234-235 | reading a printed index back gives the index, for every number, so printing is injective |
| `Decimal.PrintOfValue` | src/plugins/ietf/ietf_nat.cpp:234-235 | every digit text without a superfluous leading zero is the print of its value |
| `Decimal.ValueConcat` | src/plugins/ietf/ietf_nat.cpp:234-235 | decimal is positional, most significant digit first, over texts of any length |
| `Prefix.FindLast` | src/plugins/sys_util.cpp:17-20 | the last occurrence of a character: it is one, none follows, and none is reported exactly when there is none |
| `Prefix.ParseQuadExact` | src/plugins/sys_util.cpp:22-22 | the dotted-quad parser accepts exactly the printed quads, each with its own value |
| `Prefix.OctetsInOrder` | src/plugins/ietf/ietf_interface.cpp:263-265 | four octet texts between dots are read as the octets in the order they are written |
| `Prefix.OnlyOctetTexts` | src/plugins/ietf/ietf_interface.cpp:263-265 | no other text is accepted |
| `Prefix.StoiExact` | src/plugins/sys_util.cpp:23-23 | blanks, a sign or none, digits and any rest: the number, or a throw without a digit or outside 32 bits |
| `Prefix.ParseExact` | src/plugins/sys_util.cpp:15-24 | which texts throw, and otherwise the canonical address before the last slash and the number after it as an unsigned short |
| `Prefix.AnyFamilyLawful` | src/plugins/sys_util.cpp:22-22 | IPv4, alone or behind any lawful IPv6 notation, has canonical texts that are fixed points without '/' or '_' |
| `Prefix.ParseOfPrint` | src/plugins/sys_util.cpp:15-47 | parsing a printed prefix gives it back, for every address and every length from 0 to 65535 |
| `Prefix.PrintAfterParse` | src/plugins/sys_util.cpp:15-47 | whatever text was accepted, the parsed prefix is well formed and printing and parsing again changes nothing |
| `Netmask.NetmaskToPlen` | src/plugins/sys_util.h:80-105 | the loop returns the bit length i of the loaded mask: below 2^i, at least 2^(i-1), and 0 for 0 |
| `Netmask.BitLengthBounds` | src/plugins/sys_util.h:99-102 | for every natural number the bit length is the i with 2^(i-1) <= n < 2^i, and 0 for 0 |
| `Netmask.MaskLengthRoundsUp` | src/plugins/sys_util.h:77-105 | for a contiguous mask of p bits over any number of octets the result is p rounded up to a multiple of 8 |
| `Netmask.PrefixLengthExactAtOctets` | src/plugins/sys_util.h:77-105 | of the 33 IPv4 masks exactly those at octet boundaries give their prefix length |
| `Netmask.PrefixOfMaskExact` | src/plugins/sys_util.h:77-105 | the prefix length a netmask stands for, defined apart from the loop: p exactly for the mask of p leading bits, none for a mask with holes |
| `Netmask.AnyMaskLength` | src/plugins/sys_util.h:77-105 | whatever the mask, the last octet that is not zero decides: its bit length and eight for each octet before it |
| `Netmask.WrittenMask8` | src/plugins/ietf/ietf_interface.cpp:263-265 | the text 255.0.0.0 is taken for 8 and asks for 8 |
| `Netmask.WrittenMask16` | src/plugins/ietf/ietf_interface.cpp:263-265 | the text 255.255.0.0 is taken for 16 and asks for 16 |
| `Netmask.WrittenMask24` | src/plugins/ietf/ietf_interface.cpp:263-265 | the text 255.255.255.0 is taken for 24 and asks for 24 |
| `Netmask.WrittenMask20` | src/plugins/ietf/ietf_interface.cpp:263-265 | the text 255.255.240.0 is taken for 24 and asks for 20 |
| `ObjectModel.Om.Write` | src/plugins/ietf/ietf_interface.cpp:229-233 | a successful write sets the key and issues the command, a failed one changes nothing |
| `ObjectModel.Om.Remove` | src/plugins/ietf/ietf_interface.cpp:234-237 | a removal drops the key and issues the command |
| `ObjectModel.DecodeOfKeyText` | src/plugins/ietf/ietf_interface.cpp:227-227 | a binding's key text determines interface, address and length, with any characters in the interface name |
| `ObjectModel.KeyTextInjective` | src/plugins/ietf/ietf_interface.cpp:227-237 | bindings, NAT entries and interfaces whose name passes a test never share a key text |
| `ObjectModel.NameCollidesIffNotPlain` | src/plugins/ietf/ietf_interface.cpp:181-195 | an interface name is the key text of a binding or a NAT entry exactly when it is a numeral or reads and prints back as a binding |
| `ObjectModel.CollidingName` | src/plugins/ietf/ietf_interface.cpp:181-195 | l3_eth0_10.0.0.1/24 is such a name |
| `ObjectModel.TextRefines` | src/plugins/ietf/ietf_interface.cpp:227-237 | any commands do to the database keyed by text what they do to the model's database |
| `AddressChange.ParseAddress` | src/plugins/ietf/ietf_interface.cpp:248-268 | a list node clears the address, a leaf sets address or length, a missing value or bad netmask throws and sets nothing |
| `AddressChange.ConfigAddRemove` | src/plugins/ietf/ietf_interface.cpp:209-246 | missing interface, bad address and refused write change nothing and give their codes; otherwise the binding's key is written or removed |
| `AddressChange.AbsorbChange` | src/plugins/ietf/ietf_interface.cpp:324-345 | the carried flags, addresses and lengths after one change, exceptions included |
| `AddressChange.RemoveOldBinding` | src/plugins/ietf/ietf_interface.cpp:349-352 | the old binding is removed when the flag is set and the address is not empty |
| `AddressChange.AddNewBinding` | src/plugins/ietf/ietf_interface.cpp:354-357 | the new binding is added when the flag is set and the address is not empty |
| `AddressChange.ActOn` | src/plugins/ietf/ietf_interface.cpp:349-357 | first the old binding is removed, then the new one added; the code is that of the last action taken |
| `AddressChange.HandleChange` | src/plugins/ietf/ietf_interface.cpp:311-359 | one turn of the loop: the commands issued so far grow by those of the change, and the rest of the batch is still ahead |
| `AddressChange.ProcessChanges` | src/plugins/ietf/ietf_interface.cpp:311-359 | the loop leaves the database, the commands and the code of the specification, also when a nameless change ends it early |
| `AddressChange.AddressChangeCallback` | src/plugins/ietf/ietf_interface.cpp:275-369 | nothing on APPLY, no iteration on ABORT, the loop on VERIFY and ENABLED |
| `AddressBatch.RunSettles` | src/plugins/ietf/ietf_interface.cpp:311-359 | the loop is a sequence of patches: old binding out, new binding in if its write is accepted |
| `AddressBatch.EntryEffect` | src/plugins/ietf/ietf_interface.cpp:324-357 | the three changes of a list entry, each write accepted or not, amount to one removal set and one map of additions, whatever is carried over |
| `AddressBatch.TouchedKeys` | src/plugins/ietf/ietf_interface.cpp:311-359 | a batch adds only bindings of its created addresses and removes only those of its deleted ones, on its interfaces |
| `AddressBatch.MixedBatchExact` | src/plugins/ietf/ietf_interface.cpp:311-359 | exact database after any mixed batch over any interfaces, with any writes refused, in which no address is both created and deleted |
| `AddressEffects.CursorIs` | src/plugins/ietf/ietf_interface.cpp:287-293 | the variables carried into an entry are the last length and address of each kind before it, at first 0 and empty |
| `AddressEffects.MixedBatchByEntries` | src/plugins/ietf/ietf_interface.cpp:311-359 | the same key by key over the entries: there if some entry binds it, or if it was there and no entry removes it |
| `AddressEffects.CreatedPresentDeletedAbsent` | src/plugins/ietf/ietf_interface.cpp:311-359 | a created binding is there exactly when it was or some accepted write binds it, in particular its own; a deleted one is gone |
| `AddressEffects.OthersUnchanged` | src/plugins/ietf/ietf_interface.cpp:311-359 | a mixed batch leaves every other object as it was |
| `AddressEffects.NothingChangesIffEntriesIdle` | src/plugins/ietf/ietf_interface.cpp:311-359 | a mixed batch leaves the database as it was if and only if every entry binds what is bound and removes what is absent |
| `AddressEffects.LocalBatchFrame` | src/plugins/ietf/ietf_interface.cpp:311-359 | a batch on one interface, or of one kind, touches only each entry's own address on its own interface |
| `AddressEffects.AllCreateExact` | src/plugins/ietf/ietf_interface.cpp:287-357 | creations add exactly each entry under its own length and under the length of the entry before it, at first 0, as far as the writes are accepted |
| `AddressEffects.CreateDeleteRoundTrip` | src/plugins/ietf/ietf_interface.cpp:248-357 | creating entries, with any writes refused, and deleting the same entries gives back a database that held none of their keys |
| `AddressIntent.LastAskedDecides` | src/plugins/ietf/ietf_interface.cpp:270-274 | what a batch asks for key by key: the last entry that asks about a key decides, the length being the one its leaf asks for |
| `AddressIntent.AskedLengthMetIff` | src/plugins/sys_util.h:77-105 | the callback works with the length a leaf asks for exactly for numbers and netmasks of whole octets |
| `AddressIntent.IntendedIff` | src/plugins/ietf/ietf_interface.cpp:311-359 | for any batch of creations and deletions, one address on both sides and any netmask included, the result is what was asked for if and only if on each of the at most four keys per entry the last thing done has the effect of the last thing asked |
| `AddressIntent.IntendedIffHarmless` | src/plugins/ietf/ietf_interface.cpp:311-359 | where no address is on both sides, if and only if each entry's early, own and carried bindings are asked for or change nothing, and what each entry asks for is done or was so already |
| `AddressIntent.OneInterfaceIntendedIff` | src/plugins/ietf/ietf_interface.cpp:311-359 | on one interface only the bindings of an entry's own address, under the previous and the derived length, can make the difference |
| `AddressIntent.OffBoundaryMaskMisbinds` | src/plugins/ietf/ietf_interface.cpp:263-265 | a netmask that is not of whole octets is bound under the length rounded up, its own length stays unbound and the result is not what was asked |
| `AddressIntent.AlwaysBoundIffOnBoundary` | src/plugins/ietf/ietf_interface.cpp:263-265 | creating an address with a given length leaf always binds it as asked if and only if the leaf is a number or a netmask of whole octets |
| `AddressIntent.FirstCreationAlsoBindsLengthZero` | src/plugins/ietf/ietf_interface.cpp:287-357 | a single creation also binds the address under length 0 |
| `AddressIntent.CreationLeaksToOtherInterface` | src/plugins/ietf/ietf_interface.cpp:316-357 | creating on one interface and deleting on another also binds the created address to the other interface |
| `AddressIntent.SpillExample` | src/plugins/ietf/ietf_interface.cpp:311-359 | an IPv4 batch and a database for which the result is not what was asked |
| `AddressOrder.LastTouchDecides` | src/plugins/ietf/ietf_interface.cpp:311-359 | every batch of changes of any kind, as far as the loop gets: the last change that touches a key decides it, other keys keep their object |
| `AddressNodes.CarriedByNodes` | src/plugins/ietf/ietf_interface.cpp:248-342 | flags, addresses and lengths the loop carries after any changes, modifications and exceptions included, by which node set each last |
| `AddressNodes.LastNodesDecide` | src/plugins/ietf/ietf_interface.cpp:311-359 | the effect of every batch of changes by its nodes: the last change whose last new or old address and length touch a key decides it |
| `AddressNodes.CodeOfAnyBatch` | src/plugins/ietf/ietf_interface.cpp:316-362 | the code of every batch: a failure for a missing name, else that of the last action by the nodes, success if there was none |
| `AddressNodes.ModifiedNumber` | src/plugins/ietf/ietf_interface.cpp:330-357 | after any entries, modifying a prefix length from m to n binds the last created address under n and removes the last deleted one under m, on the modified entry's interface |
| `AddressNodes.ModifiedMask` | src/plugins/ietf/ietf_interface.cpp:263-357 | the same for netmasks, by their prefix lengths rounded up to whole octets |
| `AddressNodes.ModifiedFromBadMask` | src/plugins/ietf/ietf_interface.cpp:330-357 | a modification whose old netmask throws leaves both lengths as they were |
| `AddressOrder.NothingChangesIff` | src/plugins/ietf/ietf_interface.cpp:311-359 | any batch leaves the database as it was if and only if of each key touched the last change binds what was bound or removes what was absent |
| `AddressOrder.EntryVerdictIs` | src/plugins/ietf/ietf_interface.cpp:316-357 | what the three changes of an entry do to a key in their order, the carried address of the other kind included |
| `AddressOrder.LastEntryDecides` | src/plugins/ietf/ietf_interface.cpp:311-359 | for any batch of creations and deletions, one address on both sides included, the last entry to touch a key decides it |
| `AddressOrder.DeletionTakesEffectIff` | src/plugins/ietf/ietf_interface.cpp:344-357 | a deleted binding is gone if and only if every entry that binds it, the deletion included, is followed by one that removes it |
| `AddressOrder.CreationTakesEffectIff` | src/plugins/ietf/ietf_interface.cpp:349-357 | a created binding is there if and only if the last entry to touch its key binds it, or none does and it was there |
| `AddressOrder.CreationFirstKeepsOld` | src/plugins/ietf/ietf_interface.cpp:316-357 | moving an address with the creation first leaves it bound on the old interface too |
| `AddressOrder.DeletionFirstMoves` | src/plugins/ietf/ietf_interface.cpp:316-357 | with the deletion first it is bound on the new interface and gone from the old one |
| `AddressEffects.LengthModificationIgnored` | src/plugins/ietf/ietf_interface.cpp:330-357 | any batch without an ip change does nothing and reports success |
| `AddressEffects.OnlyBindingCommands` | src/plugins/ietf/ietf_interface.cpp:209-246 | any batch, with any writes refused, issues commands on binding keys only, each with the object of its key |
| `AddressEffects.LastActionDecidesCode` | src/plugins/ietf/ietf_interface.cpp:349-362 | for creations, deletions and mixtures, with any writes refused, the code is that of the last action of the last entry |
| `AddressIntent.SuccessHonestIff` | src/plugins/ietf/ietf_interface.cpp:349-362 | for any batch of creations and deletions, success means that every entry took effect under the length it asks for if and only if the last action fails or all entries are applicable |
| `AddressIntent.RefusalHiddenBehindSuccess` | src/plugins/ietf/ietf_interface.cpp:349-362 | a creation whose writes are refused, followed by one that succeeds: OK is returned and the first is not bound |
| `AddressIntent.HiddenRefusalExample` | src/plugins/ietf/ietf_interface.cpp:349-362 | such a batch and database on plain IPv4 |
| `NatMapping.StaticBuilder.Set` | src/plugins/ietf/ietf_nat.cpp:113-137 | a setter replaces its own field, or throws on a bad prefix and replaces nothing |
| `NatMapping.StaticBuilder.BuildObject` | src/plugins/ietf/ietf_nat.cpp:89-104 | an object only for type static, from the source prefixes, else from the destination prefixes |
| `NatMapping.MappingTable.ConfigCallback` | src/plugins/ietf/ietf_nat.cpp:152-257 | table, database, commands and return, or exception, of the specification for every batch and event |
| `NatMapping.CallbackKeepsAgreement` | src/plugins/ietf/ietf_nat.cpp:222-248 | every call keeps table and database in agreement, index by index and pair by pair, whatever fails |
| `NatMapping.FailureChangesNothing` | src/plugins/ietf/ietf_nat.cpp:178-256 | any return other than OK, wherever the batch failed, leaves both tables as they were |
| `NatMapping.MakePrefixReads` | src/plugins/ietf/ietf_nat.cpp:118-137 | a leaf with a printed prefix is read as that prefix |
| `NatMapping.MakePrefixThrowsIff` | src/plugins/ietf/ietf_nat.cpp:118-137 | a setter throws exactly for a text without a slash, without an address before it or without a number after it |
| `NatMapping.CallExact` | src/plugins/ietf/ietf_nat.cpp:178-256 | code, command and table of every batch: unsupported for a modification or move, an exception for a bad prefix, whichever comes first; invalid unless the last type is static; failed when refused; else the last source addresses under the last index, or its removal |
| `NatMapping.InterfaceWriteSafeIffNotIndex` | src/plugins/ietf/ietf_nat.cpp:234-246 | writing an interface keeps the agreement exactly when its name is not the numeral of a 32-bit index |
| `NatMapping.ScanIsLastPerLeaf` | src/plugins/ietf/ietf_nat.cpp:178-218 | on a valid batch the loop gathers exactly the last value of every leaf |
| `NatMapping.BuilderExact` | src/plugins/ietf/ietf_nat.cpp:89-137 | an object exactly when the last type is static, with the last source addresses, 0.0.0.0 where unset |
| `NatMapping.OrderIndependent` | src/plugins/ietf/ietf_nat.cpp:178-248 | every permutation of a batch with one value per leaf gives the same code, commands and table |
| `NatMapping.NatIdleIff` | src/plugins/ietf/ietf_nat.cpp:166-256 | a batch does not throw and changes nothing if and only if its first invalid change is an unsupported operation, or the mapping it would write is in both tables, or the one it would drop is in neither |
| `NatEntries.AskedAt` | src/plugins/ietf/ietf_nat.cpp:74-82 | what a batch asks of one index is what the entry of that index asks: its valid pair, its removal, or nothing |
| `NatEntries.LastOfEntries` | src/plugins/ietf/ietf_nat.cpp:178-218 | the last change to a leaf over a batch of entries with any of their leaves set, read off the entries |
| `NatEntries.EntriesExact` | src/plugins/ietf/ietf_nat.cpp:157-248 | the exact table and success of any batch of entries: one index, the last, with the last source addresses of the whole batch, or the last deletion |
| `NatEntries.AppliedAsAskedIff` | src/plugins/ietf/ietf_nat.cpp:74-248 | a batch of entries is applied as asked if and only if it is empty, one deletion, or creations of which at most the last asks for a pair and the whole batch leads to just that, or to a refusal |
| `NatEntries.SingleEntryExact` | src/plugins/ietf/ietf_nat.cpp:89-248 | one entry maps its index to its source addresses, 0.0.0.0 for a missing one, whatever its destination addresses |
| `NatEntries.TextsMapped` | src/plugins/ietf/ietf_nat.cpp:89-248 | a static entry with two printed source prefixes maps its index to their addresses, in the table and by the command |
| `NatEntries.SingleEntryAsAskedIff` | src/plugins/ietf/ietf_nat.cpp:74-248 | one entry is applied as asked if and only if it is a deletion, not static, asks for just that pair and is accepted, or asks for none and is refused |
| `NatEntries.DestinationPairIgnored` | src/plugins/ietf/ietf_nat.cpp:94-99 | a valid destination pair returns OK and maps 0.0.0.0 to 0.0.0.0 |
| `NatEntries.HalfSourceAccepted` | src/plugins/ietf/ietf_nat.cpp:74-96 | an entry with one source address, which is invalid, returns OK and is mapped |
| `NatEntries.CreationLandsOnDeletedIndex` | src/plugins/ietf/ietf_nat.cpp:178-248 | an entry created before another is deleted takes over the deleted index and its own stays unmapped |
| `InterfaceConfig.Builder.Set` | src/plugins/ietf/ietf_interface.cpp:67-81 | name and state are replaced, the type is set by the Ethernet identity only and never unset |
| `InterfaceConfig.HandleChange` | src/plugins/ietf/ietf_interface.cpp:131-165 | one change: builder leaves, an admin state set in place, a failed lookup or an unsupported operation that leaves the loop |
| `InterfaceConfig.Commit` | src/plugins/ietf/ietf_interface.cpp:171-195 | build, then write or remove, with the code of each failure |
| `InterfaceConfig.IetfCreateCallback` | src/plugins/ietf/ietf_interface.cpp:96-206 | database, commands and code of the specification for every batch, event and write outcome |
| `InterfaceConfig.OcConfigCallback` | src/plugins/openconfig/openconfig_interfaces.cpp:82-193 | the same for the OpenConfig loop, which stops on an empty name and crashes on a deletion |
| `InterfaceConfig.CallbacksAgreeIffNoDeletion` | src/plugins/openconfig/openconfig_interfaces.cpp:110-183 | on named paths both callbacks give the same code, commands and database exactly when no deletion is reached |
| `InterfaceConfig.RunsThrough` | src/plugins/ietf/ietf_interface.cpp:128-169 | a batch that nothing stops leaves the last name, type and modified interface in the variables and the last requested states in the database |
| `InterfaceConfig.LeftAtStop` | src/plugins/ietf/ietf_interface.cpp:131-165 | a change that ends the loop leaves the states set before it in the database and returns an error |
| `InterfaceConfig.AllSentIff` | src/plugins/ietf/ietf_interface.cpp:128-195 | the database is what the commands make of it if and only if every interface set before the loop ended, other than the one written, already had its last requested state |
| `InterfaceConfig.OnlyLastModificationSent` | src/plugins/ietf/ietf_interface.cpp:137-185 | two admin states set in one batch: OK is returned and only the last interface is written |
| `InterfaceConfig.UnsentWithoutWrite` | src/plugins/ietf/ietf_interface.cpp:137-190 | after a failed lookup or a refused write, any state that was set stays in the database unsent |
| `InterfaceConfig.IetfExact` | src/plugins/ietf/ietf_interface.cpp:128-205 | code, command and database of every batch: unsupported, failed lookup, no name or not iana-if-type:ethernetCsmacd, refused write, or success with the one write or removal |
| `InterfaceConfig.OcExact` | src/plugins/openconfig/openconfig_interfaces.cpp:110-192 | the same for OpenConfig, with the crash on a deletion and an invalid argument for a missing name |
| `InterfaceConfig.IetfIdleIff` | src/plugins/ietf/ietf_interface.cpp:128-195 | a batch leaves the database as it was if and only if no state it sets before the loop ends is new and what it writes is there already, or what it removes is not |
| `InterfaceConfig.OcIdleIff` | src/plugins/openconfig/openconfig_interfaces.cpp:110-190 | the same for the OpenConfig loop, where a deletion that is reached crashes and a missing name ends the loop |
| `Transactions.IneffectiveStutters` | src/plugins/sys_util.h:37-39 | APPLY, ABORT, and ENABLED outside the address callback change nothing, in all four configuration callbacks |
| `Transactions.IneffectiveSucceeds` | src/plugins/ietf/ietf_interface.cpp:114-116 | and are answered with success and no command |
| `Transactions.EnabledConfiguresAddresses` | src/plugins/ietf/ietf_interface.cpp:295-311 | ENABLED does to addresses, and answers, just what VERIFY does, and nothing for the other callbacks |
| `Transactions.OnlyEffectiveDeliveriesMatter` | src/plugins/openconfig/openconfig_interfaces.cpp:102-103 | over every run of deliveries to the four callbacks, database, NAT table and crashes depend on VERIFY and, for addresses, ENABLED only |
| `Transactions.VerifyTakesEffectOnce` | src/plugins/ietf/ietf_interface.cpp:114-116 | VERIFY followed by APPLY takes effect once, and VERIFY followed by ABORT is not taken back |
| `Transactions.AbortRestoresIffIdle` | src/plugins/ietf/ietf_interface.cpp:114-116 | for all four callbacks, VERIFY followed by ABORT gives back the state before if and only if the request is idle, a test on the request, the database and the NAT table |
| `Transactions.AbortedMappingStays` | src/plugins/ietf/ietf_nat.cpp:169-248 | a static NAT entry verified and then aborted stays in the table |
| `RegistryCalls.FindFrom` | src/plugins/sc_init.h:82-89 | the walk stops at the first element of the function whose flag is clear, or finds all of them set |
| `RegistryCalls.CallAllOnce` | src/plugins/sc_init.c:18-34 | start-up ends and runs every body at most once, with cyclic dependencies and failures too |
| `RegistryCalls.EveryElementRunsOnce` | src/plugins/sc_init.c:18-47 | when nothing fails, as with exit functions, every registered element runs exactly once |
| `RegistryCalls.CallAllOrdered` | src/plugins/sc_init.h:77-91 | with acyclic dependencies every registered dependency has run before its dependent's own body |
| `RegistryCalls.DependenciesFirstIffAcyclic` | src/plugins/sc_init.h:77-91 | that order holds if and only if the registered dependencies are acyclic |
| `RegistryCalls.CallAllStopsAtFirstFailure` | src/plugins/sc_init.c:23-33 | when functions give up on failed dependencies, only the last body run has failed and its code is returned |
| `RegistryCalls.StartupEndsAtFailure` | src/plugins/sc_init.c:18-34 | whatever functions do about failed dependencies, start-up ends at the first element it called itself that failed, with its code; success means that all are called |
| `RegistryCalls.NoDependencies` | src/plugins/sc_init.c:25-29 | a function without dependencies runs its body and its code is returned |
| `RegistryCalls.IndependentInOrder` | src/plugins/sc_init.c:18-34 | functions without dependencies run in list order up to and including the first that fails, whose code is returned |
| `RegistryCalls.CallFindsFirst` | src/plugins/sc_init.h:78-91 | calling a function invokes its first uncalled element, and does nothing when there is none |
| `RegistryCalls.BodyRunsLast` | src/plugins/sc_init.h:77-91 | whatever fails, a body that runs is the last to run, finds every registered dependency called, and its code is returned |
| `Registry.PluginMain.Add` | src/plugins/sc_init.h:44-52 | the element becomes the head of a well-formed list, its flag clear, the rest unchanged |
| `Registry.PluginMain.Remove` | src/plugins/sc_init.h:54-70 | the first element of the function is unlinked, order, functions and flags of the others stay |
| `Registry.PluginMain.CallInit` | src/plugins/sc_init.h:78-91 | flags, run order and code of the specification; terminates by the flags still clear |
| `Registry.PluginMain.CallAllInit` | src/plugins/sc_init.c:18-34 | flags, run order and code of the specification for the whole list |
| `Registry.Replay` | src/plugins/sc_init.h:42-70 | every interleaving of registrations and removals keeps the list well formed and equal to the abstract sequence, and the head access is safe |
| `Registry.AddThenRemove` | src/plugins/sc_init.h:42-70 | on the heap, adding and removing leaves the same elements, the same head and the same links |
| `Registry.RegisterThenUnregister` | src/plugins/sc_init.h:42-70 | the same for the sequence of functions |
| `Registry.Conserved` | src/plugins/sc_init.h:42-70 | what is listed and what was removed is what was there and what was registered, with multiplicity |
| `Recovery.RunKeepsInv` | src/plugins/sc_plugins.c:165-191 | every run of commits, crashes, restarts and check steps keeps the recovery invariant |
| `Recovery.RecordedPidMeansInSync` | src/plugins/sc_plugins.c:165-191 | in every run, recorded pid alive and no check reconnecting means VPP equals the database |
| `Recovery.ExactObservationsAlwaysInSync` | src/plugins/sc_plugins.c:165-191 | if the pid lookup fails only when VPP is down, that holds at every moment |
| `Recovery.TrustworthyIffNoError` | src/plugins/sc_plugins.c:168-181 | from any reachable idle state with the recorded pid live, a lookup leaves every continuation with exact lookups in step if and only if it is no error |
| `Recovery.CheckConverges` | src/plugins/sc_plugins.c:168-190 | from any reachable state one undisturbed check records the live pid and puts VPP in step; a second changes nothing |
| `Recovery.StraddledCheckNeedsOneMore` | src/plugins/sc_plugins.c:168-190 | a check that straddled a restart has recovered exactly when it read the live pid, and otherwise one more does |
| `Recovery.StartupSafeIffUndisturbed` | src/plugins/sc_plugins.c:122-149 | start-up leaves the state recovery needs exactly when VPP was not replaced before its pid was read |
| `Recovery.DisturbedStartupNeverRepaired` | src/plugins/sc_plugins.c:168-171 | after a disturbed start-up no check ever reconnects and no commit reaches VPP until the next crash |
| `Recovery.SteadyChecksConverge` | src/plugins/sc_plugins.c:168-190 | from any reachable state, once VPP stays up and one more check has begun, every moment between checks has the live pid recorded and VPP in step, whatever commits interleave |
| `Recovery.Plugin.HealthCheck` | src/plugins/sc_plugins.c:165-191 | nothing for a known pid; otherwise the steps of the check, waiting for VPP to come up where it is down |
| `Recovery.Plugin.InitCallback` | src/plugins/sc_plugins.c:116-150 | a failing init function's code is returned, a missing pid is reported, and otherwise recovery can rely on the state exactly when VPP was not replaced during whatever happened meanwhile |
| `System.AddressCommitCovers` | src/plugins/ietf/ietf_interface.cpp:311-359 | after an admissible commit, addresses in any text, every configured address has its binding, under the length asked for where that is a number or a netmask of whole octets |
| `System.OffBoundaryCommitUncovered` | src/plugins/ietf/ietf_interface.cpp:263-265 | committing any other netmask leaves the address configured and not bound under the length asked for |
| `System.TwoTextsOneBinding` | src/plugins/ietf/ietf_interface.cpp:223-237 | of a datastore with two texts of one address, deleting one leaves the other bound if and only if its length is neither that of the deleted entry nor 0 |
| `System.AddressBatchKeepsAgreement` | src/plugins/ietf/ietf_interface.cpp:227-237 | no address batch, with any writes refused, disturbs a NAT entry, in the database keyed by values and in the one keyed by strings |
| `System.NatBatchKeepsCover` | src/plugins/ietf/ietf_nat.cpp:233-248 | no NAT batch disturbs an address binding, in either database |
| `System.TextAgreement` | src/plugins/ietf/ietf_nat.cpp:234-246 | the NAT table agrees with the database keyed by strings whenever it agrees with the one keyed by values |
| `System.InterfaceCommitIsItsCommands` | src/plugins/ietf/ietf_interface.cpp:128-195 | an interface commit of a run leaves in the database just what its commands say |
| `System.CommitIsDelivery` | src/plugins/sys_util.h:37-39 | a commit of a run leaves in database, NAT table and VPP what the callback does on VERIFY, and nothing where it throws |
| `System.EndToEnd` | src/plugins/sc_plugins.c:165-191 | the end-to-end theorem over every run, for both databases and for VPP |
| `System.TextFollows` | src/plugins/ietf/ietf_nat.cpp:234-246 | every step of a run keeps the two databases in correspondence |

## Left out

- `get_vpp_pid` and its scan of /proc: an observation that answers the live pid or a negative error.
- The retry loops around `HW::connect` end only if VPP comes up: `HealthCheck` is told when it does, `InitCallback` starts after it has.
- The internals of VOM, VAPI, sysrepo and boost, such as several objects under one key or references that keep an object alive.
- IPv6 text in detail, and `netmask_to_plen` on an IPv6 address: the schema offers netmasks for IPv4 only.
- System.EndToEnd: a netmask that is not of whole octets is promised under the length rounded up only, because its own length is not bound (`System.OffBoundaryCommitUncovered`).
- System.AddressCommitCovers: the same holds of such a netmask in one commit.
- System.EndToEnd: interface commits that do not send all they set (the condition of `InterfaceConfig.AllSentIff`) or that use another object's key as a name are not part of the runs, because they break the property.
- System.EndToEnd: a commit in which VPP refuses the write of a created binding, or that mixes creations and deletions over several interfaces, is not part of the runs, for the same reason.
- Registry.Replay: the static element of each registration is a new one, as each constructor runs once.
- Failures of the sysrepo change iterator, which end a callback before it has done anything.
- The state and statistics callbacks, `interface_dump` and the subscription calls: they fill in values from library calls.
- Logging, freeing of sysrepo values and iterators, null arguments, YANG modules, samples, build files and the test harness.
