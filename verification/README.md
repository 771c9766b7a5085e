# DecentralizedFileStorage, modelled in Dafny

The `DecentralizedFileStorage` Soroban contract keeps file-metadata records and
access-control entries in its instance storage. It offers four entry points:
`create_file`, `set_access_control`, `get_file_metadata` and `check_access`.
The storage has three fixed keys:

- `C_FILES` holds the file counter. It reads as 0 while unset.
- `FILE_META` holds one `FileMetadata`: the most recently created one.
- `ACCE_CON` holds one `AccessControl`: the most recently set one.

No key depends on a file id. This model keeps that fixed-slot behaviour as it is
and does not turn it into a map.

The model is a pure transition system over `State(countFiles, fileMeta, accessCon)`.
Each slot is an `Option`.

- `wrappers.dfy` (module `Wrappers`) defines `Option` and `Result`.
- `file_storage.dfy` (module `FileStorage`) defines the two records, the storage
  and the three panics (`FileNotFound`, `NotOwner`, `AccessNotFound`). It defines
  each entry point as a function of the storage.
- `contract.dfy` (module `Contract`) shows how the host drives the contract. An
  `Invocation` is a call plus the ledger timestamp the host supplies. `Invoke`
  runs one invocation atomically: a panic returns the storage unchanged. `Run`
  applies a sequence of invocations in order.
- `properties.dfy` (module `Properties`) holds the lemmas. They cover id
  allocation, the behaviour of the two single slots, and a storage invariant
  (`Valid`) that every reachable storage satisfies.

The ledger clock is a parameter of each invocation.

The only "ownership" test in `set_access_control` is that the given id equals the
stored record's id. No caller identity is checked, and the model invents none.

Two details of the code's failure and return behaviour:

- `set_access_control` returns nothing (lib.rs:71). The model's `SetAccessControl`
  yields only the storage after the call.
- `check_access` panics with its own "Access control not found!" (lib.rs:102). The
  model gives this its own error, `AccessNotFound`, separate from `FileNotFound`.

## Model

| member | source | states |
|---|---|---|
| FileStorage.CreateFile | contracts/hello_world/src/lib.rs:42-68 | returns the previous counter (unset read as 0) plus 1, never 0; stores that value as the counter; the stored record carries the arguments, the ledger time as `created_at`, and the new id as both `file_id` and `access_control`; the access slot is untouched; there is no failure outcome |
| FileStorage.SetAccessControl | contracts/hello_world/src/lib.rs:71-91 | fails with file-not-found exactly when no record is stored; fails with not-owner exactly when the stored record's id differs from the given id; otherwise stores exactly `{file_id, user, permission}` and leaves counter and metadata as they were |
| FileStorage.GetFileMetadata | contracts/hello_world/src/lib.rs:94-98 | fails with file-not-found exactly when no record is stored; otherwise returns the stored record, whichever id was asked for |
| FileStorage.CheckAccess | contracts/hello_world/src/lib.rs:101-111 | fails with access-not-found exactly when no entry is stored; otherwise answers true exactly when both id and user match the stored entry and its permission is true |
| Contract.Invoke | contracts/hello_world/src/lib.rs:42-111 | a panicking call leaves storage unchanged; only `create_file` returns an id, which is the counter plus 1; only `create_file` moves the counter (by exactly 1) or the metadata slot; only `set_access_control` changes the access slot; the two queries never change storage |
| Contract.Run | contracts/hello_world/src/lib.rs:43-44 | over any sequence of calls, one reply per call, and the counter grows by exactly the number of `create_file` calls |
| Properties.CreatedIdsConsecutive | contracts/hello_world/src/lib.rs:43-67 | the ids a sequence of calls returns are consecutive, continuing from the stored counter, and there is one per `create_file` call |
| Properties.IdsStrictlyIncreasingFromOne | contracts/hello_world/src/lib.rs:43-67 | from a fresh deployment the returned ids are exactly 1, 2, 3, ...: strictly increasing, never reused, never 0 |
| Properties.CreateNotIdempotent | contracts/hello_world/src/lib.rs:43-44 | two `create_file` calls with identical arguments get consecutive, hence distinct, ids |
| Properties.CreateThenGet | contracts/hello_world/src/lib.rs:47-97 | `get_file_metadata` right after `create_file` returns the arguments, the ledger time and the returned id as `file_id` and `access_control`, for any requested id |
| Properties.SecondCreateShadowsFirst | contracts/hello_world/src/lib.rs:61-97 | after two creations, asking for the first id returns the second record in full (its id as `file_id` and `access_control`, its arguments, its timestamp), and the two ids differ |
| Properties.GetIgnoresRequestedId | contracts/hello_world/src/lib.rs:94-97 | `get_file_metadata` gives the same result for every requested id |
| Properties.AccessSlotStable | contracts/hello_world/src/lib.rs:85 | no sequence of calls without `set_access_control` changes the access slot |
| Properties.GrantHoldsUntilNextSet | contracts/hello_world/src/lib.rs:76-110 | after a successful `set_access_control(id, u, p)` and any later calls that are not `set_access_control`, `check_access(id, u)` answers `p` and every other id/user pair is answered `false` |
| Properties.CheckBeforeAnySetPanics | contracts/hello_world/src/lib.rs:102 | from a fresh deployment, before any `set_access_control`, `check_access` panics with access-not-found |
| Properties.InvokePreservesValid | contracts/hello_world/src/lib.rs:42-91 | each call keeps the storage invariant: the metadata record carries the counter's value as id and access reference, is present exactly when the counter is non-zero, and the access entry names an id between 1 and the counter |
| Properties.RunPreservesValid | contracts/hello_world/src/lib.rs:42-91 | every sequence of calls keeps that invariant |
| Properties.GetBeforeAnyCreatePanics | contracts/hello_world/src/lib.rs:95 | from a fresh deployment, before any `create_file`, `get_file_metadata` panics with file-not-found |
| Properties.OnlyLatestFileAcceptsAccess | contracts/hello_world/src/lib.rs:61-89 | in any storage reachable from a fresh deployment, `set_access_control` succeeds exactly for the most recently allocated id, so access to an earlier file can no longer be set |
| Properties.AliceBobCarolScenario | contracts/hello_world/src/lib.rs:42-111 | alice creates "a.txt" and gets id 1; granting bob access to file 1 succeeds; `check_access(1, "bob")` is true and `check_access(1, "carol")` is false |

## Left out

- FileStorage.CreateFile: u64 overflow of the counter increment (lib.rs:44) is not modelled. Whether it wraps or panics depends on a build profile that is not part of this model. Instead, `CreateFile`, `Invoke` and `Run` require the counter to stay at most 2^64-1.
- `log!` event emission (lib.rs:65, 87, 96, 105, 108) is left out. It only serves observability and writes no storage.
- The Soroban host is replaced by an explicit `State` value and a per-invocation timestamp. This covers `Env`, `storage().instance()`, `ledger().timestamp()` and the `#[contracttype]` serialisation.
- Caller authentication and cryptographic identity are left out because the contract performs none.
- Consensus, ordering and replication of calls are left out. The host imposes them; a sequence of invocations (`Run`) stands for the total order it chooses.
- Panic messages are not modelled as text. They are represented by the three `Error` cases.
- Soroban `String` is modelled as Dafny `string`, with no byte encoding. The contract only copies strings and compares them for equality (lib.rs:104), so the encoding does not matter.
