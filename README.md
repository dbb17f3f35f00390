# Pion capability broker, modelled in Dafny

Pion lets two unrelated processes hand a binder object to each other with no
naming service between them. Both open the same file, the anchor. One side
calls `register(anchor, binder)` to deposit its binder. The other side calls
`exchange(anchor)` to collect it. The broker keys its registry by the anchor
file's `(dev, ino)` pair, so the path used to open the file and the opening
process do not matter.

This project models the broker object `Pion` from `src/main.rs`: its registry,
the helper `entry`, and the two operations `register` and `exchange`. It
proves what each call answers and how it changes the registry. It also proves
what follows for any serialised sequence of calls: entries are never removed or
replaced, at most one register per key succeeds, the first register attempt
on a vacant key is the one that succeeds, every key added came from a
successful register, and a later exchange returns the registered handle.

Files:

- `wrappers.dfy`: `Option` and `Result`.
- `status.dfy`: the errors the broker returns.
  - `StatusCode::ServiceSpecific(0).into()` and `StatusCode::PermissionDenied.into()` are `Code(...)`.
  - `Status::new_service_specific_error(code, Some(msg))` is `ServiceSpecificError(code, msg)`.
- `anchor.dfy`: the descriptor as the broker sees it. This covers whether
  `try_clone` succeeds, the `fstat` result (device, inode, 32-bit mode) and the
  open mode. It also holds the read-only test (`mode & 0o222 == 0`, the Unix
  `Permissions::readonly`) and `Identify`, the first three steps of `entry`.
- `registry.dfy`: the registry as a `map<Key, H>` value. It defines `entry`,
  `register` and `exchange` as functions of the map and the anchor. It also
  defines a sequence of calls, each taken as one atomic step, and the lemmas
  about such sequences.
- `pion.dfy`: the class `Pion` with its `registry` field. `Register` updates
  that field in place. `Entry` and `Exchange` only read it. Each method is
  proved against the matching function in `registry.dfy`. This file also
  models the demonstration client.

The capability handle (`SIBinder`) is the type parameter `H`. Cloning a
handle gives back the same value.

Where the code's behaviour differs from what a caller of the broker might expect, the model follows the code:

- `exchange` also runs the read-only check, because the check lives in
  `entry`. A read-only anchor therefore gets `PermissionDenied` from `exchange`
  too.
- If cloning the descriptor or reading its metadata fails, the broker answers
  `StatusCode::ServiceSpecific(0)`, not `PermissionDenied`.
- The guard looks at the file's permission bits. It ignores the mode the
  descriptor was opened with, so an anchor opened read-only is accepted when
  its file has any write bit set (`Anchor.AccessModeIgnored`,
  `Anchor.ReadOnlyOpenAccepted`).
- The "already registered" and "not found" failures are service-specific
  errors 1 and 0, with the messages "couldn't register object" and
  "couldn't find object".

## Model

| member | source | states |
|---|---|---|
| Anchor.Identify | src/main.rs:18-33 | a key comes out exactly when the descriptor clones, its metadata reads, and some write bit (owner, group or other) is set; the key is `(dev, ino)`; a clone or metadata failure gives `ServiceSpecific(0)` and a file with no write bit gives `PermissionDenied`, and there is no other error |
| Anchor.SameFileSameKey | src/main.rs:33 | two accepted anchors give the same key if and only if they share device and inode |
| Anchor.AccessModeIgnored | src/main.rs:29-31 | the outcome of the guard does not depend on the mode the descriptor was opened with |
| Anchor.ReadOnlyOpenAccepted | src/main.rs:29-31 | a descriptor opened read-only on a file with mode 0o644 is accepted, and its key is its `(dev, ino)` |
| Registry.RegisterOn | src/main.rs:38-51 | register never removes or replaces an entry; a failed register leaves the map as it was; it succeeds exactly when the anchor is accepted and its key is vacant, and then binds that key to the handle; a rejected anchor gives the guard's error and an occupied key gives error 1 |
| Registry.ExchangeOn | src/main.rs:53-64 | exchange succeeds exactly when the anchor is accepted and its key is occupied, and then returns the handle stored under that key; a rejected anchor gives the guard's error and a vacant key gives error 0 |
| Registry.RegisterVacant | src/main.rs:45-49 | register with an accepted anchor whose key is vacant answers Ok, and the new map is the old one with the key bound to the handle |
| Registry.RegisterOccupied | src/main.rs:40-44 | register on an occupied key fails with service-specific error 1, and the map is unchanged, so the first handle stays |
| Registry.ExchangeOccupied | src/main.rs:54-58 | exchange on an occupied key returns exactly the stored handle |
| Registry.ExchangeVacant | src/main.rs:59-62 | exchange on a vacant key fails with service-specific error 0 |
| Registry.ReadonlyDenied | src/main.rs:29-31 | a read-only file makes both register and exchange fail with `PermissionDenied`, whether its key is occupied or not, and the map is unchanged |
| Registry.UnidentifiedFails | src/main.rs:19-27 | if the clone or the metadata read fails, both operations answer `ServiceSpecific(0)` and the map is unchanged |
| Registry.RoundTripAcrossAnchors | src/main.rs:38-64 | register through one anchor, then exchange through another anchor on the same file: the exchange returns the new handle if the key was vacant, and the earlier handle otherwise |
| Registry.StepExtends | src/main.rs:38-64 | no single call removes or replaces an entry |
| Registry.RunExtendsPrefix | src/main.rs:38-64 | after any sequence of calls, the registry extends the registry left by any prefix of those calls |
| Registry.OnlyGrows | src/main.rs:38-64 | every entry of the starting registry survives any sequence of calls with the same handle |
| Registry.FirstWriterWins | src/main.rs:45-49 | once a register succeeds, its key maps to that call's handle after every later call |
| Registry.SingleFlight | src/main.rs:39-49 | two successful register calls in one run never have the same key |
| Registry.ExchangeAfterRegister | src/main.rs:53-58 | every exchange after a successful register, through an anchor with the same key, returns the registered handle |
| Registry.KeyOrigin | src/main.rs:45-49 | every key present after a sequence of calls and absent before it was added by a successful register call whose anchor names that key |
| Registry.FirstRegisterSucceeds | src/main.rs:39-49 | on a key vacant at the start, the first register call naming it succeeds, whatever other calls come before it |
| Registry.ExchangeBeforeRegisterNotFound | src/main.rs:59-62 | an exchange on a key vacant at the start, with no earlier register call naming it, fails with service-specific error 0 |
| Registry.ContendedRegister | src/main.rs:38-51 | for any serialisation of register calls racing on one vacant key, the first succeeds, all others fail with error 1, and the key holds the first handle |
| Broker.Pion.constructor | src/main.rs:15-16 | a new broker starts with an empty registry |
| Broker.Pion.Entry | src/main.rs:18-34 | `entry` returns the key's slot, occupied exactly when the key is in the registry, and does not change the registry |
| Broker.Pion.Register | src/main.rs:38-51 | the reply and the new registry are those of `Registry.RegisterOn` on the old registry, and every old entry is kept |
| Broker.Pion.Exchange | src/main.rs:53-64 | the reply is `Registry.ExchangeOn` of the registry, which the call leaves unchanged; on success it is the handle stored under the anchor's key |
| Broker.SimpleService | examples/simple_service.rs:34-38 | a rejected anchor ends the run with the guard's error and an occupied key with error 1, before any exchange and with the registry unchanged; on a vacant key the register succeeds, the key gets the service, and the exchange through the same anchor returns that service |

## Left out

- `main` and `is_mounted` (`src/main.rs:67-132`) are left out. They mount binderfs, create the device node, set its permissions, make the symlink and run the binder thread pool. All of that is operating-system and IPC setup.
- The `println!` logging and the `env_logger` setup are left out. They have no behaviour to state.
- Concurrency is not modelled directly. dashmap's sharded locks make each call atomic on its key, so each call is one step on the map. Concurrent calls are modelled as sequences of such steps in every possible order.
- rsbinder's `SIBinder`, `ParcelFileDescriptor` and `Status` are reduced to what the broker observes. Reference counting and the wire encoding of a status are not modelled.
- The example client's file creation, file locking and `echo` call are left out. `Broker.SimpleService` keeps only its register/exchange round trip.
- Broker.SimpleService: the client's `unwrap` panics are modelled as ending the run with the failed reply's error, not as a process abort.
- The AIDL stub generation in `build.rs` is left out. It has no runtime logic.
